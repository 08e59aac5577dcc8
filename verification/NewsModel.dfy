/** The reader as a state machine: user calls, server reads, the delegate's reactions inside a
    callback, and a log of everything sent and reported. */
module NewsModel {
  import opened Wrappers
  import opened NewsText
  import Counters

  datatype Operation = Article | ArticleHeader | ListGroupArticles | ListGroups

  datatype Command =
    | NoCommand                      // the empty text
    | AuthUser(user: string)
    | AuthPass(pass: string)
    | Quit
    | Group(name: string)
    | ListGroup(name: string)
    | List
    | Head(id: string)
    | GetArticle(id: string)

  /** The text that goes out on the wire. */
  function Wire(c: Command): string {
    match c
    case NoCommand => ""
    case AuthUser(u) => "AUTHINFO user " + u + "\n"
    case AuthPass(p) => "AUTHINFO pass " + p + "\n"
    case Quit => "quit\n"
    case Group(n) => "GROUP " + n + "\n"
    case ListGroup(n) => "LISTGROUP " + n + "\n"
    case List => "LIST\n"
    case Head(id) => "HEAD " + id + "\n"
    case GetArticle(id) => "ARTICLE " + id + "\n"
  }

  datatype Notice = Connected | NextArticle | Finished | ConnectionFailed | Disconnected

  /** What a delegate may do with the reader inside a callback, and a user at any time. */
  datatype Call =
    | CallArticle(group: string, id: string)
    | CallHeader(group: string, id: string)
    | CallListArticles(group: string)
    | CallListGroups
    | CallQuit
    | CallClose

  /** The delegates of the program, and `Script` for any other: its n-th notification makes the
      n-th list of calls. `group` is the group found in the store, if any. */
  datatype Delegate =
    | HeadLoop(group: Option<string>, ids: seq<string>, idx: nat)
    | ArticleIds(groupName: string)
    | GroupLister
    | OneArticle(group: Option<string>, id: string)
    | Script(reactions: seq<seq<Call>>)

  /** A group as the server lists it. */
  datatype Listed = Listed(name: string, first: int, last: int, canPost: bool)

  /** A line of the list: name, last and first number and posting flag between blanks. */
  function ParseGroup(line: string): Option<Listed> {
    var parts := Counters.Split(line, ' ');
    if |parts| != 4 then None
    else match (Counters.IntOf(parts[1]), Counters.IntOf(parts[2]))
      case (Some(last), Some(first)) => Some(Listed(parts[0], first, last, parts[3] == "y"))
      case _ => None
  }

  /** The groups of the lines that are well-formed. */
  function ParseGroups(lines: seq<string>): seq<Listed> {
    if lines == [] then []
    else (if ParseGroup(lines[0]).Some? then [ParseGroup(lines[0]).value] else []) + ParseGroups(lines[1..])
  }

  datatype Event =
    | Heard(buffer: string)          // a buffer looked at for a status
    | Sent(cmd: Command)
    | Notified(notice: Notice)
    | NotConnected
    | GotIds(ids: seq<string>)
    | GotGroups(groups: seq<Listed>)
    | GotHeader(id: string, header: map<string, string>)
    | GotArticleText(text: string)

  datatype Reader = Reader(
    isOpen: bool, connected: bool, resultsComing: bool, op: Option<Operation>, groupCommand: Command,
    articleId: string, article: string, response: string,
    username: string, password: string, delegate: Delegate, log: seq<Event>)

  function Fresh(username: string, password: string, delegate: Delegate): Reader {
    Reader(false, false, false, None, NoCommand, "", "", "", username, password, delegate, [])
  }

  function Log(r: Reader, e: Event): Reader {
    r.(log := r.log + [e])
  }

  /** Sending on a closed reader does nothing. */
  function Send(r: Reader, c: Command): Reader {
    if r.isOpen then Log(r, Sent(c)) else r
  }

  function Perform(r: Reader, c: Call): Reader {
    match c
    case CallArticle(group, id) =>
      if !r.connected then Log(r, NotConnected)
      else
        var r1 := r.(article := "", articleId := id);
        if r1.resultsComing then Send(r1, GetArticle(id))
        else Send(r1.(op := Some(Article), response := "", groupCommand := GetArticle(id)), Group(group))
    case CallHeader(group, id) =>
      if !r.connected then Log(r, NotConnected)
      else
        var r1 := r.(articleId := id);
        if r1.resultsComing then Send(r1, Head(id))
        else Send(r1.(op := Some(ArticleHeader), response := "", groupCommand := Head(id)), Group(group))
    case CallListArticles(group) =>
      if !r.connected then Log(r, NotConnected)
      else Send(r.(op := Some(ListGroupArticles), response := ""), ListGroup(group))
    case CallListGroups =>
      if !r.connected then Log(r, NotConnected)
      else Send(r.(op := Some(ListGroups), response := ""), List)
    case CallQuit => Send(r, Quit)
    case CallClose => r.(isOpen := false)
  }

  function PerformAll(r: Reader, cs: seq<Call>): Reader
    decreases |cs|
  {
    if cs == [] then r else PerformAll(Perform(r, cs[0]), cs[1..])
  }

  /** The delegate's answer to a notification. */
  function React(d: Delegate, n: Notice): (Delegate, seq<Call>) {
    match d
    case HeadLoop(group, ids, idx) =>
      if n.Connected? || n.NextArticle? then
        if group.None? then (d, [])
        else if idx < |ids| then (HeadLoop(group, ids, idx + 1), [CallHeader(group.value, ids[idx])])
        else (d, [CallClose])
      else if n.Finished? then (d, [CallClose])
      else (d, [])
    case ArticleIds(name) =>
      (d, if n.Connected? then [CallListArticles(name)] else if n.Finished? then [CallClose] else [])
    case GroupLister =>
      (d, if n.Connected? then [CallListGroups] else if n.Finished? then [CallClose] else [])
    case OneArticle(group, id) =>
      (d, if n.Connected? && group.Some? then [CallArticle(group.value, id)]
          else if n.Finished? then [CallClose] else [])
    case Script(reactions) =>
      if reactions == [] then (d, []) else (Script(reactions[1..]), reactions[0])
  }

  function Notify(r: Reader, n: Notice): Reader {
    var (d, calls) := React(r.delegate, n);
    PerformAll(Log(r, Notified(n)).(delegate := d), calls)
  }

  // ----- status lines -----

  const S200: string := "200 news.easynews.com Welcome!"
  const S381: string := "381 PASS required"
  const S281: string := "281 Welcome To Easynews."
  const S502: string := "502 Authentication Failed"
  const S205: string := "205 Goodbye"
  const S215: string := "215 NewsGroups Follow"
  const S211_LIST: string := "211 Article Numbers Follow"
  const S211: string := "211 "

  function Clear(r: Reader): Reader {
    r.(response := "")
  }

  function ProcessResponse(r0: Reader, buffer: string): Reader {
    var r := Log(r0, Heard(buffer));
    if S200 <= buffer then Clear(Send(r, AuthUser(r.username)))
    else if buffer == "." then Notify(r, Finished)
    else if S381 <= buffer then Clear(Send(r, AuthPass(r.password)))
    else if S281 <= buffer then Clear(Notify(r.(connected := true), Connected))
    else if S502 <= buffer then Clear(Notify(r, ConnectionFailed))
    else if S205 <= buffer then Clear(Notify(r.(isOpen := false), Disconnected))
    else if S215 <= buffer then Clear(r.(resultsComing := true))
    else if S211_LIST <= buffer then Clear(r.(resultsComing := true))
    else if S211 <= buffer then
      var r1 := Clear(r.(resultsComing := true));
      Send(r1, r1.groupCommand)
    else r
  }

  // ----- reads -----

  function Last(ls: seq<string>): string
    requires ls != []
  {
    ls[|ls| - 1]
  }

  function NotDots(ls: seq<string>): seq<string> {
    if ls == [] then [] else (if ls[0] == "." then [] else [ls[0]]) + NotDots(ls[1..])
  }

  function Doing(r: Reader, op: Operation): bool {
    r.resultsComing && r.op == Some(op)
  }

  function TakeArticle(r: Reader, prefix: string): Reader {
    if !Doing(r, Article) then r
    else
      var r1 := r.(article := r.article + prefix + CRLF);
      var parts := Lines(r1.article);
      if parts != [] && Last(parts) == "." then Notify(Log(r1, GotArticleText(r1.article)), Finished) else r1
  }

  function TakeHeader(r: Reader, prefix: string): Reader {
    if !Doing(r, ArticleHeader) then r
    else Notify(Log(r, GotHeader(r.articleId, HeaderMap(prefix))), NextArticle)
  }

  function TakeIds(r: Reader, lines: seq<string>): Reader {
    if !Doing(r, ListGroupArticles) then r
    else
      var r1 := Log(r, GotIds(NotDots(lines)));
      if "." in lines then Notify(r1, Finished) else r1
  }

  function TakeGroups(r: Reader, lines: seq<string>): Reader {
    if !Doing(r, ListGroups) || lines == [] then r
    else
      var r1 := Log(r, GotGroups(ParseGroups(NotDots(lines))));
      if "." in lines then Notify(r1, Finished) else r1
  }

  /** One turn of the read loop when results are coming; the buffer already holds the read. */
  function TakeBuffer(r: Reader): Reader {
    var (prefix, rest) := LastSplit(r.response);
    var lines := Lines(prefix);
    TakeGroups(TakeIds(TakeHeader(TakeArticle(r.(response := rest), prefix), prefix), lines), lines)
  }

  /** `readAvailableBytes` on the reads that are available; it stops when the reader is closed,
      and after the first read while no results are coming. What it leaves unread is returned. */
  function ReadLoop(r: Reader, chunks: seq<string>): (result: (Reader, seq<string>))
    ensures |result.1| <= |chunks| && (chunks != [] && r.isOpen ==> |result.1| < |chunks|)
    decreases |chunks|
  {
    if chunks == [] || !r.isOpen then (r, chunks)
    else
      var r1 := r.(response := r.response + chunks[0]);
      if !r1.resultsComing then (r1, chunks[1..]) else ReadLoop(TakeBuffer(r1), chunks[1..])
  }

  /** One `hasBytesAvailable` event. */
  function StreamEvent(r: Reader, chunks: seq<string>): (Reader, seq<string>) {
    if !r.isOpen then (r, chunks)
    else
      var (r1, rest) := ReadLoop(r, chunks);
      (ProcessResponse(r1, r1.response), rest)
  }

  /** Events until the reads are used up or the reader is closed. */
  function Deliver(r: Reader, chunks: seq<string>): Reader
    decreases |chunks|
  {
    if chunks == [] || !r.isOpen then r
    else
      var (r1, rest) := StreamEvent(r, chunks);
      Deliver(r1, rest)
  }

  // ----- runs -----

  datatype Step =
    | Open
    | User(call: Call)
    | Arrive(chunks: seq<string>)     // reads that are available together

  function Take(r: Reader, s: Step): Reader {
    match s
    case Open => r.(isOpen := true)
    case User(c) => Perform(r, c)
    case Arrive(chunks) => Deliver(r, chunks)
  }

  function Exec(r: Reader, steps: seq<Step>): Reader
    decreases |steps|
  {
    if steps == [] then r else Exec(Take(r, steps[0]), steps[1..])
  }
}
