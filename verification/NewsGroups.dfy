/** LIST: the groups that the command is told, for every way the stream is cut into reads and the
    reads are batched into stream events. */
module NewsGroups {
  import opened Wrappers
  import opened NewsText
  import opened NewsModel
  import opened NewsStream
  import opened NewsBlock
  import Counters

  // ----- one line -----

  /** A word of a line: some text without blanks. */
  predicate Word(s: string) {
    s != "" && ' ' !in s
  }

  lemma {:induction false} SplitWord(word: string, rest: string)
    requires Word(word)
    ensures Counters.Split(word + " " + rest, ' ') == [word] + Counters.Split(rest, ' ')
    ensures Counters.Split(word, ' ') == [word]
  {
    Counters.SplitPlain(word, ' ', "", " " + rest);
    assert word + " " + rest == word + (" " + rest) && "" + word == word;
    assert (" " + rest)[0] == ' ' && (" " + rest)[1..] == rest;
    Counters.SplitPlain(word, ' ', "", "");
    assert word + "" == word;
  }

  /** Section 7.6.3 of RFC 3977: name, highest and lowest number and status, with blanks between. */
  function LineOfGroup(name: string, high: string, low: string, status: string): string {
    name + " " + (high + " " + (low + " " + status))
  }

  /** A line of the list, whatever its words: it gives a group if and only if its numbers are
      numbers of 64 bits, and then the group has its words. */
  lemma {:induction false} GroupIsReadIff(name: string, high: string, low: string, status: string)
    requires Word(name) && Word(high) && Word(low) && Word(status)
    ensures var g := ParseGroup(LineOfGroup(name, high, low, status));
            && (g.Some? <==> Counters.IntOf(high).Some? && Counters.IntOf(low).Some?)
            && (g.Some? ==>
                  g.value == Listed(name, Counters.IntOf(low).value, Counters.IntOf(high).value, status == "y"))
  {
    hide Counters.Split, Counters.IntOf;
    var line := LineOfGroup(name, high, low, status);
    SplitWord(name, high + " " + (low + " " + status));
    SplitWord(high, low + " " + status);
    SplitWord(low, status);
    SplitWord(status, "");
    assert Counters.Split(line, ' ') == [name] + ([high] + ([low] + [status])) == [name, high, low, status];
  }

  /** The line that a server writes for a group. */
  function GroupLine(g: Listed): string
    requires g.first >= 0 && g.last >= 0
  {
    LineOfGroup(g.name, Counters.Decimal(g.last), Counters.Decimal(g.first), if g.canPost then "y" else "n")
  }

  /** A group as it can stand in a list. */
  predicate Listable(g: Listed) {
    Word(g.name) && 0 <= g.first <= Counters.INT_MAX && 0 <= g.last <= Counters.INT_MAX
  }

  lemma {:induction false} DecimalIsNumber(n: nat)
    requires n <= Counters.INT_MAX
    ensures Word(Counters.Decimal(n)) && Counters.IntOf(Counters.Decimal(n)) == Some(n)
  {
    Counters.DecimalReadsBack(n);
    var d := Counters.Decimal(n);
    assert forall i | 0 <= i < |d| :: d[i] != ' ';
  }

  /** Round trip: a group that is written is read back. */
  lemma {:induction false} GroupReadsBack(g: Listed)
    requires Listable(g)
    ensures ParseGroup(GroupLine(g)) == Some(g)
  {
    hide Counters.Decimal, Counters.IntOf, ParseGroup;
    DecimalIsNumber(g.first);
    DecimalIsNumber(g.last);
    GroupIsReadIff(g.name, Counters.Decimal(g.last), Counters.Decimal(g.first), if g.canPost then "y" else "n");
  }

  // ----- the lines of a block -----

  function Parsed(line: string): seq<Listed> {
    if ParseGroup(line).Some? then [ParseGroup(line).value] else []
  }

  lemma {:induction false} FirstLine(line: string, lines: seq<string>)
    ensures ParseGroups([line] + lines) == Parsed(line) + ParseGroups(lines) && ParseGroups([]) == []
  {
    hide ParseGroup;
    assert ([line] + lines)[0] == line && ([line] + lines)[1..] == lines;
  }

  lemma {:induction false} ParseConcat(a: seq<string>, b: seq<string>)
    ensures ParseGroups(a + b) == ParseGroups(a) + ParseGroups(b)
    decreases |a|
  {
    hide ParseGroups, Parsed;
    if a == [] {
      FirstLine("", []);
      assert a + b == b;
    } else {
      FirstLine(a[0], a[1..]);
      FirstLine(a[0], a[1..] + b);
      assert a == [a[0]] + a[1..] && a + b == [a[0]] + (a[1..] + b);
      ParseConcat(a[1..], b);
    }
  }

  lemma {:induction false} EmptyLineIsNoGroup()
    ensures ParseGroup("").None?
  {
    assert Counters.Split("", ' ') == [];
  }

  /** The groups of what is seen of some lines, with the dot or without. */
  lemma {:induction false} GroupsSeen(ls: seq<string>, closing: seq<string>)
    requires PlainLines(ls) && closing in [[], ["."]]
    ensures ParseGroups(NotDots(NonEmpty(ls) + closing)) == ParseGroups(ls)
  {
    hide ParseGroups, ParseGroup, NotDots;
    FirstLine("", []);
    if ls == [] {
      OnlyDots(closing);
      assert [] + closing == closing;
    } else {
      var l, more := ls[0], ls[1..];
      RestLines(ls, 1);
      GroupsSeen(more, closing);
      assert PlainLine(l);
      EmptyLineIsNoGroup();
      FirstLine(l, more);
      assert ls == [l] + more;
      var rest := NonEmpty(more) + closing;
      assert NonEmpty(ls) + closing == Piece(l) + rest;
      if l == "" {
        assert Piece(l) + rest == rest && [] + ParseGroups(more) == ParseGroups(more);
      } else {
        NotDotsConcat([l], rest);
        OnlyDots([l]);
        FirstLine(l, NotDots(rest));
      }
    }
  }

  lemma {:induction false} OnlyDots(ls: seq<string>)
    requires |ls| <= 1
    ensures NotDots(ls) == if ls == ["."] then [] else ls
  {
  }

  // ----- how many groups a text can list -----

  function Blanks(s: string): nat {
    if s == "" then 0 else (if s[0] == ' ' then 1 else 0) + Blanks(s[1..])
  }

  lemma {:induction false} BlanksConcat(a: string, b: string)
    ensures Blanks(a + b) == Blanks(a) + Blanks(b)
  {
    if a == "" {
      assert a + b == b;
    } else {
      assert (a + b)[0] == a[0] && (a + b)[1..] == a[1..] + b;
      BlanksConcat(a[1..], b);
    }
  }

  lemma {:induction false} NoBlanksInEnd()
    ensures Blanks(CRLF) == 0 && Blanks("") == 0
  {
    assert CRLF[1..] == "\n" && "\n"[1..] == "";
  }

  lemma {:induction false} WordsOf(s: string, piece: string)
    ensures |Counters.SplitFrom(s, ' ', piece)| <= Blanks(s) + 1
  {
    if s != "" {
      WordsOf(s[1..], if s[0] == ' ' then "" else piece + [s[0]]);
    }
  }

  /** A line of a group has three blanks at least. */
  lemma {:induction false} GroupHasBlanks(line: string)
    ensures ParseGroup(line).Some? ==> Blanks(line) >= 3
  {
    WordsOf(line, "");
  }

  /** So a text lists no more groups than a third of its blanks, wherever its lines end. */
  lemma {:induction false} GroupsHaveBlanks(s: string, piece: string)
    ensures 3 * |ParseGroups(NotDots(LinesFrom(s, piece)))| <= Blanks(piece) + Blanks(s)
    decreases |s|
  {
    hide ParseGroup;
    if s == "" {
      PieceHasBlanks(piece);
    } else if |s| >= 2 && s[0] == '\r' && s[1] == '\n' {
      PieceHasBlanks(piece);
      GroupsHaveBlanks(s[2..], "");
      NotDotsConcat(Piece(piece), LinesFrom(s[2..], ""));
      ParseConcat(NotDots(Piece(piece)), NotDots(LinesFrom(s[2..], "")));
      assert Blanks(s) == Blanks(s[1..]) == Blanks(s[1..][1..]) && s[1..][1..] == s[2..];
    } else {
      GroupsHaveBlanks(s[1..], piece + [s[0]]);
      BlanksConcat(piece, [s[0]]);
      assert [s[0]][1..] == "";
    }
  }

  lemma {:induction false} PieceHasBlanks(piece: string)
    ensures 3 * |ParseGroups(NotDots(Piece(piece)))| <= Blanks(piece)
  {
    hide ParseGroup;
    GroupHasBlanks(piece);
    assert [piece][1..] == [] && NotDots([]) == [];
    assert NotDots([piece]) == if piece == "." then [] else [piece];
    assert ParseGroups([piece]) == (if ParseGroup(piece).Some? then [ParseGroup(piece).value] else []) + [];
  }

  // ----- one read -----

  function GroupsOf(e: Event): seq<Listed> {
    if e.GotGroups? then e.groups else []
  }

  predicate Listing(r: Reader) {
    r.isOpen && r.resultsComing && r.op == Some(ListGroups) && r.delegate == GroupLister
  }

  /** These groups have been told and nothing else has happened. */
  predicate Advances(r: Reader, r': Reader, groups: seq<Listed>) {
    Listing(r') && Told(r'.log, GroupsOf) == Told(r.log, GroupsOf) + groups && DoneIn(r'.log) == DoneIn(r.log)
  }

  lemma {:induction false} NoLinesNoGroups()
    ensures ParseGroups(NotDots([])) == []
  {
    assert NotDots([]) == [];
  }

  lemma {:induction false} ListerReads(r: Reader)
    requires Listing(r)
    ensures var (p, q) := LastSplit(r.response);
            var lines := Lines(p);
            var groups := ParseGroups(NotDots(lines));
            var r' := TakeBuffer(r);
            && r'.response == q && r'.delegate == GroupLister
            && ("." in lines ==> Finishes(r, r', GroupsOf, groups) && r'.log[|r'.log|-1] == Notified(Finished))
            && ("." !in lines ==> Advances(r, r', groups))
  {
    hide Lines, LastSplit, ParseGroups, NotDots, Told, DoneIn, Notify;
    var (p, q) := LastSplit(r.response);
    var lines := Lines(p);
    var groups := ParseGroups(NotDots(lines));
    if lines == [] {
      NoLinesNoGroups();
      assert Told(r.log, GroupsOf) + [] == Told(r.log, GroupsOf);
    } else {
      var r1 := Log(r.(response := q), GotGroups(groups));
      ToldSnoc(r.log, GotGroups(groups), GroupsOf);
      DoneCloses(r1);
      ToldSnoc(r1.log, Notified(Finished), GroupsOf);
      assert Told(r1.log, GroupsOf) + [] == Told(r1.log, GroupsOf);
    }
  }

  /** Between reads: `ls` is still to be told, and less than a line waits. */
  predicate Midway(r: Reader, ls: seq<string>, t: string) {
    Listing(r) && PlainLines(ls) && r.response + t == Block(ls) && !HasCrlf(r.response)
  }

  /** One read that leaves a line end in the buffer tells the groups of the lines that end in it. */
  lemma {:induction false} ListerTakesRead(r: Reader, ls: seq<string>, chunk: string, t: string) returns (k: nat)
    requires Midway(r, ls, chunk + t) && HasCrlf(r.response + chunk)
    ensures k <= |ls|
    ensures var r' := TakeBuffer(r.(response := r.response + chunk));
            && r'.response == LastSplit(r.response + chunk).1
            && (r'.response + t == "" ==>
                  Finishes(r, r', GroupsOf, ParseGroups(ls)) && r'.log[|r'.log|-1] == Notified(Finished))
            && (r'.response + t != "" ==> Advances(r, r', ParseGroups(ls[..k])) && Midway(r', ls[k..], t))
  {
    hide Lines, LastSplit, HasCrlf, Told, DoneIn, Block, TakeBuffer, DoneLast, ParseGroups, NotDots, NonEmpty, Quiet;
    var buffer := r.response + chunk;
    var (p, q) := LastSplit(buffer);
    ListerReads(r.(response := buffer));
    assert p + CRLF + (q + t) == Block(ls) by {
      assert r.response + (chunk + t) == buffer + t;
      assert buffer + t == p + CRLF + (q + t);
    }
    k := CutBlock(ls, p, q + t);
    RestLines(ls, k);
    NonEmptyHasNoDot(ls[..k]);
    var closing := if q + t == "" then ["."] else [];
    GroupsSeen(ls[..k], closing);
    if q + t == "" {
      assert ls[..k] == ls;
      assert (NonEmpty(ls) + ["."])[|NonEmpty(ls)|] == ".";
    } else {
      assert NonEmpty(ls[..k]) + [] == NonEmpty(ls[..k]);
    }
  }

  lemma {:induction false} AdvancesThen(r: Reader, r1: Reader, r2: Reader, ls: seq<string>, k: nat, j: nat)
    requires k <= |ls| && j <= |ls[k..]| && Advances(r, r1, ParseGroups(ls[..k]))
    ensures ls[k..][j..] == ls[k + j..]
    ensures Advances(r1, r2, ParseGroups(ls[k..][..j])) ==> Advances(r, r2, ParseGroups(ls[..k + j]))
    ensures Finishes(r1, r2, GroupsOf, ParseGroups(ls[k..])) ==> Finishes(r, r2, GroupsOf, ParseGroups(ls))
  {
    hide Told, DoneIn, ParseGroups;
    ParseConcat(ls[..k], ls[k..][..j]);
    assert ls[..k] + ls[k..][..j] == ls[..k + j];
    ParseConcat(ls[..k], ls[k..]);
    assert ls[..k] + ls[k..] == ls;
    var before := Told(r.log, GroupsOf);
    var some, most, all := ParseGroups(ls[..k]), ParseGroups(ls[k..][..j]), ParseGroups(ls[k..]);
    assert before + some + most == before + (some + most) && before + some + all == before + (some + all);
  }

  // ----- events and runs -----

  /** The reads of one event, with `later` still to come. */
  lemma {:induction false} ListerLoops(r: Reader, ls: seq<string>, chunks: seq<string>, later: seq<string>)
    returns (k: nat)
    requires Midway(r, ls, Join(chunks + later)) && EndsLines(r.response, chunks + later)
    ensures k <= |ls|
    ensures var (r', left) := ReadLoop(r, chunks);
            && r'.response == Carry(r.response, chunks) && left == []
            && (r'.isOpen ==>
                  && Advances(r, r', ParseGroups(ls[..k])) && Midway(r', ls[k..], Join(later))
                  && EndsLines(r'.response, later))
            && (!r'.isOpen ==>
                  && Finishes(r, r', GroupsOf, ParseGroups(ls)) && r'.log[|r'.log|-1] == Notified(Finished)
                  && r'.response == "" && later == [])
    decreases |chunks|
  {
    hide TakeBuffer, Lines, LastSplit, HasCrlf, Told, DoneIn, PlainLines, Block, DoneLast, ParseGroup;
    if chunks == [] {
      k := 0;
      assert chunks + later == later && ls[0..] == ls && ls[..0] == [];
      assert Told(r.log, GroupsOf) + [] == Told(r.log, GroupsOf);
    } else {
      var more := chunks[1..] + later;
      assert (chunks + later)[0] == chunks[0] && (chunks + later)[1..] == more;
      k := ListerTakesRead(r, ls, chunks[0], Join(more));
      var r1 := TakeBuffer(r.(response := r.response + chunks[0]));
      if r1.response + Join(more) == "" {
        if more != [] {
          assert false;
        }
        assert |more| == 0;
      } else {
        var j := ListerLoops(r1, ls[k..], chunks[1..], later);
        AdvancesThen(r, r1, ReadLoop(r1, chunks[1..]).0, ls, k, j);
        k := k + j;
      }
    }
  }

  /** No group is listed in the text. */
  predicate NoGroupIn(text: string) {
    ParseGroups(NotDots(Lines(text))) == []
  }

  /** No line begins with a dot. */
  predicate NoDotStarts(ls: seq<string>) {
    forall i | 0 <= i < |ls| :: !("." <= ls[i])
  }

  /** The first event that leaves over a lone dot, if any, comes after all groups. */
  predicate DotComesLast(carry: string, batches: seq<seq<string>>)
    decreases |batches|
  {
    batches == [] ||
    var carry' := Carry(carry, batches[0]);
    if batches[0] != [] && carry' == "." then NoGroupIn("." + Join(Flat(batches[1..])))
    else DotComesLast(carry', batches[1..])
  }

  lemma {:induction false} MidwayRest(r: Reader, ls: seq<string>, t: string)
    requires Midway(r, ls, t)
    ensures NoGroupIn(r.response + t) <==> ParseGroups(ls) == []
    ensures r.response + t != r.response
  {
    hide ParseGroup, Lines;
    LinesOfBlock(ls);
    GroupsSeen(ls, ["."]);
    BlockHasEnd(ls);
  }

  // ----- looks at status texts -----

  /** The command has not been replaced, and is listing as long as the reader is open. */
  predicate Lists(r: Reader) {
    r.delegate == GroupLister && (r.isOpen ==> Listing(r))
  }

  /** On logging in again the list is asked for again. */
  lemma {:induction false} ConnectedAgain(r: Reader)
    requires Lists(r) && r.connected
    ensures var r' := Notify(r, Connected);
            && Lists(r') && r'.isOpen == r.isOpen
            && (r'.log == r.log + [Notified(Connected)] || r'.log == r.log + [Notified(Connected), Sent(List)])
  {
    var r1 := Log(r, Notified(Connected));
    var r2 := Perform(r1, CallListGroups);
    assert [CallListGroups][1..] == [];
    assert PerformAll(r1, [CallListGroups]) == PerformAll(r2, []) == r2;
    assert r.log + [Notified(Connected)] + [Sent(List)] == r.log + [Notified(Connected), Sent(List)];
  }

  lemma {:induction false} StatusLook(r: Reader)
    requires Lists(r) && !Quiet(r.response)
    ensures var r' := ProcessResponse(r, r.response);
            && Lists(r') && r'.response == "" && (r'.isOpen ==> r.isOpen)
            && Told(r'.log, GroupsOf) == Told(r.log, GroupsOf)
  {
    hide Notify, Told, ProcessResponse, Quiet;
    var s := r.response;
    var r1 := Log(r, Heard(s));
    var r' := ProcessResponse(r, s);
    StatusCases(r, s);
    ConnectedAgain(r1.(connected := true));
    NoAction(r1, ConnectionFailed);
    NoAction(r1.(isOpen := false), Disconnected);
    AddsNothing(r.log, r1.log, r'.log, GroupsOf);
  }

  // ----- no more groups are told than are listed -----

  function ToldCount(r: Reader): nat {
    |Told(r.log, GroupsOf)|
  }

  /** The blanks still to be read. */
  function BlanksLeft(r: Reader, t: string): nat {
    if r.isOpen then Blanks(r.response + t) else 0
  }

  /** What is told is paid for with blanks. */
  predicate Pays(r: Reader, t: string, r': Reader, t': string) {
    3 * ToldCount(r') + BlanksLeft(r', t') <= 3 * ToldCount(r) + BlanksLeft(r, t)
  }

  lemma {:induction false} ReadPays(r: Reader, chunk: string, t: string)
    requires Listing(r)
    ensures var r' := TakeBuffer(r.(response := r.response + chunk)); Lists(r') && Pays(r, chunk + t, r', t)
  {
    hide Lines, LastSplit, HasCrlf, Told, DoneIn, TakeBuffer, DoneLast, ParseGroups, NotDots, Blanks;
    var buffer := r.response + chunk;
    var (p, q) := LastSplit(buffer);
    ListerReads(r.(response := buffer));
    GroupsHaveBlanks(p, "");
    NoBlanksInEnd();
    assert Lines(p) == LinesFrom(p, "") by { LinesAre(p); }
    assert r.response + (chunk + t) == buffer + t;
    BlanksConcat(buffer, t);
    BlanksConcat(q, t);
    BlanksConcat(p + CRLF, q);
    BlanksConcat(p, CRLF);
  }

  lemma {:induction false} LookPays(r: Reader, t: string)
    requires Lists(r)
    ensures var r' := ProcessResponse(r, r.response);
            Lists(r') && Pays(r, t, r', t) && (r'.isOpen ==> r.isOpen)
  {
    hide Quiet, ProcessResponse, Told, DoneIn, Blanks, Notify;
    if Quiet(r.response) {
      QuietProcess(r, r.response);
      QuietLook(r, GroupsOf);
      DoneCloses(Log(r, Heard(r.response)));
      assert Told(r.log, GroupsOf) + [] == Told(r.log, GroupsOf);
    } else {
      StatusLook(r);
      BlanksConcat(r.response, t);
      assert "" + t == t;
    }
  }

  lemma {:induction false} LoopPays(r: Reader, chunks: seq<string>, t: string)
    requires Lists(r)
    ensures var (r', left) := ReadLoop(r, chunks);
            Lists(r') && Pays(r, Join(chunks) + t, r', t) && (r'.isOpen ==> left == [])
    decreases |chunks|
  {
    hide TakeBuffer, Told, Blanks;
    if chunks == [] {
      assert Join(chunks) + t == t;
    } else if r.isOpen {
      assert Join(chunks) + t == chunks[0] + (Join(chunks[1..]) + t);
      ReadPays(r, chunks[0], Join(chunks[1..]) + t);
      LoopPays(TakeBuffer(r.(response := r.response + chunks[0])), chunks[1..], t);
    }
  }

  lemma {:induction false} EventPays(r: Reader, batch: seq<string>, t: string)
    requires Lists(r)
    ensures Lists(Deliver(r, batch)) && Pays(r, Join(batch) + t, Deliver(r, batch), t)
  {
    hide ReadLoop, ProcessResponse, Told, Blanks;
    if batch == [] {
      assert Join(batch) + t == t;
    } else if r.isOpen {
      LoopPays(r, batch, t);
      var (r1, left) := ReadLoop(r, batch);
      LookPays(r1, t);
      var r2 := ProcessResponse(r1, r1.response);
      assert Deliver(r, batch) == Deliver(r2, left) == r2;
    }
  }

  lemma {:induction false} RunPays(r: Reader, batches: seq<seq<string>>)
    requires Lists(r)
    ensures 3 * ToldCount(Exec(r, Arrivals(batches))) <= 3 * ToldCount(r) + BlanksLeft(r, Join(Flat(batches)))
    decreases |batches|
  {
    hide Deliver, Lists, ToldCount, BlanksLeft, Join;
    if batches != [] {
      var batch, more := batches[0], batches[1..];
      var steps := Arrivals(batches);
      assert steps[0] == Arrive(batch) && steps[1..] == Arrivals(more);
      JoinConcat(batch, Flat(more));
      EventPays(r, batch, Join(Flat(more)));
      RunPays(Deliver(r, batch), more);
    }
  }

  // ----- events -----

  lemma {:induction false} DotStartsLine(ls: seq<string>, k: nat, t: string)
    requires k <= |ls| && "." + t == Block(ls[k..])
    ensures NoDotStarts(ls) ==> ls[k..] == []
  {
    if ls[k..] != [] {
      var l := ls[k..][0];
      assert l == ls[k];
      assert Block(ls[k..])[0] == if l == "" then '\r' else l[0];
      assert ("." + t)[0] == '.';
    }
  }

  /** One event. */
  lemma {:induction false} ListerTakes(r: Reader, ls: seq<string>, batch: seq<string>, later: seq<string>)
    returns (k: nat)
    requires Midway(r, ls, Join(batch + later)) && EndsLines(r.response, batch + later) && batch != []
    ensures k <= |ls|
    ensures var r' := Deliver(r, batch);
            var carry := Carry(r.response, batch);
            && (carry == "." ==>
                  && Finishes(r, r', GroupsOf, ParseGroups(ls[..k]))
                  && (NoGroupIn(carry + Join(later)) <==> ParseGroups(ls[k..]) == [])
                  && (NoDotStarts(ls) ==> ls[k..] == []))
            && (carry != "." && Quiet(carry) && r'.isOpen ==>
                  && Advances(r, r', ParseGroups(ls[..k])) && Midway(r', ls[k..], Join(later))
                  && r'.response == carry && EndsLines(r'.response, later))
            && (carry != "." && Quiet(carry) && !r'.isOpen ==>
                  Finishes(r, r', GroupsOf, ParseGroups(ls)) && later == [] && carry == "")
            && (!Quiet(carry) ==>
                  && Lists(r') && BlanksLeft(r', Join(later)) <= Blanks(Join(later))
                  && ToldCount(r') == ToldCount(r) + |ParseGroups(ls[..k])| && carry + Join(later) == Block(ls[k..]))
  {
    hide Lines, LastSplit, HasCrlf, Told, DoneIn, ReadLoop, ProcessResponse, EndsLines, Carry, PlainLines, Block,
         ParseGroups, NoGroupIn, Quiet, Blanks;
    k := ListerLoops(r, ls, batch, later);
    var r1 := ReadLoop(r, batch).0;
    var r2 := ProcessResponse(r1, r1.response);
    assert Deliver(r, batch) == Deliver(r2, []) == r2;
    EmptyIsQuiet("", "");
    if r1.isOpen {
      MidwayRest(r1, ls[k..], Join(later));
      if r1.response == "." {
        DotStartsLine(ls, k, Join(later));
      }
    }
    if Quiet(r1.response) {
      QuietLook(r1, GroupsOf);
    } else {
      StatusLook(r1);
      assert "" + Join(later) == Join(later);
    }
    assert Told(r1.log, GroupsOf) + [] == Told(r1.log, GroupsOf);
  }

  lemma {:induction false} NoMoreDots(batches: seq<seq<string>>)
    requires Flat(batches) == []
    ensures DotComesLast("", batches) && QuietUntilDot("", batches)
    decreases |batches|
  {
    if batches != [] {
      assert batches[0] == [] && Flat(batches[1..]) == [];
      NoMoreDots(batches[1..]);
    }
  }

  /** Until an event leaves over a lone dot none leaves over a status text. */
  predicate QuietUntilDot(carry: string, batches: seq<seq<string>>)
    decreases |batches|
  {
    batches == [] ||
    var carry' := Carry(carry, batches[0]);
    if batches[0] == [] then QuietUntilDot(carry', batches[1..])
    else carry' == "." || (Quiet(carry') && QuietUntilDot(carry', batches[1..]))
  }

  /** Each line lists a group with three blanks, or has none. */
  predicate Exact(ls: seq<string>) {
    forall i | 0 <= i < |ls| :: Blanks(ls[i]) == if ParseGroup(ls[i]).Some? then 3 else 0
  }

  lemma {:induction false} ExactBlanks(ls: seq<string>)
    requires Exact(ls)
    ensures Blanks(Block(ls)) == 3 * |ParseGroups(ls)|
  {
    hide ParseGroup;
    NoBlanksInEnd();
    if ls == [] {
      assert ("." + CRLF)[1..] == CRLF;
    } else {
      LaterIsExact(ls, 1);
      ExactBlanks(ls[1..]);
      BlanksConcat(ls[0] + CRLF, Block(ls[1..]));
      BlanksConcat(ls[0], CRLF);
    }
  }

  lemma {:induction false} LaterIsExact(ls: seq<string>, k: nat)
    requires k <= |ls|
    ensures Exact(ls) ==> Exact(ls[k..])
  {
    hide ParseGroup, Blanks;
    forall i | 0 <= i < |ls[k..]| ensures ls[k..][i] == ls[k + i] {}
  }

  lemma {:induction false} StatusHasBlank(s: string)
    ensures !Quiet(s) ==> Blanks(s) > 0
  {
    assert S200[3] == S381[3] == S281[3] == S502[3] == S205[3] == S215[3] == S211_LIST[3] == S211[3] == ' ';
    if !Quiet(s) {
      assert s[3] == ' ';
      BlanksConcat(s[..3], s[3..]);
      assert s == s[..3] + s[3..];
    }
  }

  /** After a status text has been left over not all groups can be told. */
  lemma {:induction false} GroupIsLost(
      r: Reader, r1: Reader, ls: seq<string>, k: nat, carry: string, more: seq<seq<string>>)
    requires k <= |ls| && Exact(ls) && !Quiet(carry) && carry + Join(Flat(more)) == Block(ls[k..])
    requires Lists(r1) && BlanksLeft(r1, Join(Flat(more))) <= Blanks(Join(Flat(more)))
    requires ToldCount(r1) == ToldCount(r) + |ParseGroups(ls[..k])|
    ensures ToldCount(Exec(r1, Arrivals(more))) < ToldCount(r) + |ParseGroups(ls)|
  {
    hide Lists, BlanksLeft, Exact, Quiet, ParseGroups, Block, ToldCount;
    RunPays(r1, more);
    LaterIsExact(ls, k);
    ExactBlanks(ls[k..]);
    BlanksConcat(carry, Join(Flat(more)));
    StatusHasBlank(carry);
    ParseConcat(ls[..k], ls[k..]);
    assert ls[..k] + ls[k..] == ls;
  }

  /** Something is told, then "Done"; it is all of the list just when no dot comes too early. */
  lemma {:induction false} ListerRuns(r: Reader, ls: seq<string>, batches: seq<seq<string>>) returns (k: nat)
    requires Midway(r, ls, Join(Flat(batches))) && EndsLines(r.response, Flat(batches))
    ensures k <= |ls|
    ensures var r' := Exec(r, Arrivals(batches));
            && (QuietUntilDot(r.response, batches) ==>
                  && Finishes(r, r', GroupsOf, ParseGroups(ls[..k]))
                  && (DotComesLast(r.response, batches) <==> ParseGroups(ls[k..]) == [])
                  && (NoDotStarts(ls) ==> DotComesLast(r.response, batches)))
            && (!QuietUntilDot(r.response, batches) && Exact(ls) ==> ToldCount(r') < ToldCount(r) + |ParseGroups(ls)|)
    decreases |batches|
  {
    hide HasCrlf, Told, DoneIn, Deliver, Join, EndsLines, Carry, PlainLines, DoneLast, Block, ParseGroups, ToldCount,
         NoGroupIn, Finishes, NoDotStarts, Quiet, Exact, Blanks, DotComesLast, QuietUntilDot;
    if batches == [] {
      MidwayRest(r, ls, Join([]));
      JoinNothing(r.response);
      assert false;
    } else {
      var batch, more := batches[0], batches[1..];
      var steps := Arrivals(batches);
      assert steps[0] == Arrive(batch) && steps[1..] == Arrivals(more);
      var r1 := Deliver(r, batch);
      EmptyBatch(r);
      FirstEvent(r.response, batches);
      if batch == [] {
        assert batch + Flat(more) == Flat(more);
        k := ListerRuns(r, ls, more);
      } else {
        k := ListerTakes(r, ls, batch, Flat(more));
        FinishedIsClosed(r, r1, ls, k);
        EmptyIsQuiet("", "");
        var carry := Carry(r.response, batch);
        if !Quiet(carry) {
          if Exact(ls) {
            GroupIsLost(r, r1, ls, k, carry, more);
          }
        } else if r1.isOpen {
          NoDotsLater(ls, k);
          LaterIsExact(ls, k);
          var j := ListerRuns(r1, ls[k..], more);
          FinishesThen(r, r1, Exec(r1, Arrivals(more)), ls, k, j);
          k := k + j;
        } else {
          NothingArrives(r1, more);
          if carry != "." {
            NoMoreDots(more);
            k := |ls|;
            assert ls[..k] == ls && ls[k..] == [];
            FirstLine("", []);
          } else {
            FirstLine("", []);
          }
        }
      }
    }
  }

  lemma {:induction false} FirstEvent(carry: string, batches: seq<seq<string>>)
    requires batches != []
    ensures var carry' := Carry(carry, batches[0]);
            && (DotComesLast(carry, batches) <==>
                  if batches[0] != [] && carry' == "." then NoGroupIn("." + Join(Flat(batches[1..])))
                  else DotComesLast(carry', batches[1..]))
            && (QuietUntilDot(carry, batches) <==>
                  if batches[0] == [] then QuietUntilDot(carry', batches[1..])
                  else carry' == "." || (Quiet(carry') && QuietUntilDot(carry', batches[1..])))
  {
  }

  lemma {:induction false} NoDotsLater(ls: seq<string>, k: nat)
    requires k <= |ls|
    ensures NoDotStarts(ls) ==> NoDotStarts(ls[k..])
  {
    forall i | 0 <= i < |ls[k..]| ensures ls[k..][i] == ls[k + i] {}
  }

  lemma {:induction false} FinishedIsClosed(r: Reader, r': Reader, ls: seq<string>, k: nat)
    requires k <= |ls|
    ensures Finishes(r, r', GroupsOf, ParseGroups(ls[..k])) ==> !r'.isOpen
  {
  }

  lemma {:induction false} FinishesThen(r: Reader, r1: Reader, r2: Reader, ls: seq<string>, k: nat, j: nat)
    requires k <= |ls| && j <= |ls[k..]| && Advances(r, r1, ParseGroups(ls[..k]))
    ensures ls[k..][j..] == ls[k + j..]
    ensures Finishes(r1, r2, GroupsOf, ParseGroups(ls[k..][..j])) ==>
              Finishes(r, r2, GroupsOf, ParseGroups(ls[..k + j]))
    ensures |ParseGroups(ls)| == |ParseGroups(ls[..k])| + |ParseGroups(ls[k..])|
    ensures ToldCount(r1) == ToldCount(r) + |ParseGroups(ls[..k])|
  {
    hide ParseGroups, Told, DoneIn, DoneLast;
    var some := ls[..k + j];
    assert some[..k] == ls[..k] && some[k..] == ls[k..][..j];
    AdvancesThen(r, r1, r2, some, k, 0);
    ParseConcat(ls[..k], ls[k..]);
    assert ls[..k] + ls[k..] == ls;
  }

  /** The list command, exactly: when every read leaves a line end in the buffer and, until a lone
      dot is left over, no event leaves over a status text, the command is told "Done" once and
      closes the reader. It has then been told all groups of the list, in order, each once, if and
      only if no event left over a lone dot while groups were still to come, as the start of a
      line that begins with a dot. */
  lemma {:induction false} GroupsAreListedIff(r: Reader, ls: seq<string>, batches: seq<seq<string>>)
    requires Listing(r) && r.response == "" && PlainLines(ls)
    requires Join(Flat(batches)) == Block(ls) && EndsLines("", Flat(batches)) && QuietUntilDot("", batches)
    ensures var r' := Exec(r, Arrivals(batches));
            && !r'.isOpen && DoneIn(r'.log) == DoneIn(r.log) + 1 && DoneLast(r'.log)
            && Told(r'.log, GroupsOf) <= Told(r.log, GroupsOf) + ParseGroups(ls)
            && (Told(r'.log, GroupsOf) == Told(r.log, GroupsOf) + ParseGroups(ls) <==> DotComesLast("", batches))
    ensures NoDotStarts(ls) ==> DotComesLast("", batches)
  {
    hide Exec, Told, DoneIn, DoneLast, PlainLines, ParseGroups, EndsLines, DotComesLast, Join, Flat, NoDotStarts,
         QuietUntilDot, Block;
    DotLine();
    assert r.response + Block(ls) == Block(ls);
    var k := ListerRuns(r, ls, batches);
    ParseConcat(ls[..k], ls[k..]);
    assert ls[..k] + ls[k..] == ls;
    var before, some, rest := Told(r.log, GroupsOf), ParseGroups(ls[..k]), ParseGroups(ls[k..]);
    assert before + (some + rest) == before + some + rest;
    assert |before + some| == |before + some + rest| <==> rest == [];
    assert rest == [] ==> before + some + rest == before + some;
  }

  /** In a list of which no line looks like a status line none is left over. */
  lemma {:induction false} OrdinaryIsQuiet(ls: seq<string>, batches: seq<seq<string>>)
    requires TextLines(ls) && Join(Flat(batches)) == Block(ls) && EndsLines("", Flat(batches))
    ensures QuietUntilDot("", batches)
  {
    hide TextLines, Block, QuietLeftovers;
    assert "" + Join(Flat(batches)) == Join(Flat(batches));
    OrdinaryLeftovers(ls, "", batches);
    QuietIsUntilDot("", batches);
  }

  lemma {:induction false} QuietIsUntilDot(carry: string, batches: seq<seq<string>>)
    requires QuietLeftovers(carry, batches)
    ensures QuietUntilDot(carry, batches)
    decreases |batches|
  {
    hide Quiet, Carry, QuietLeftovers;
    if batches != [] {
      QuietNext(carry, batches);
      QuietIsUntilDot(Carry(carry, batches[0]), batches[1..]);
    }
  }

  // ----- a list of groups -----

  /** A group as a server can list it: a name on one line that does not begin with a dot. */
  predicate Served(g: Listed) {
    Listable(g) && '\r' !in g.name && g.name[0] != '.'
  }

  predicate AllServed(groups: seq<Listed>) {
    forall i | 0 <= i < |groups| :: Served(groups[i])
  }

  function GroupLines(groups: seq<Listed>): seq<string>
    requires AllServed(groups)
  {
    if groups == [] then []
    else
      assert Served(groups[0]) && forall i | 0 <= i < |groups[1..]| :: groups[1..][i] == groups[i + 1];
      [GroupLine(groups[0])] + GroupLines(groups[1..])
  }

  lemma {:induction false} NoStatus(g: Listed, status: string)
    requires Served(g) && |status| >= 4 && status[3] == ' ' && ' ' !in status[..3]
    requires |status| > 4 && !Counters.IsDigit(status[4])
    ensures !(status <= GroupLine(g))
  {
    var line, n := GroupLine(g), |g.name|;
    assert line[..n] == g.name && line[n] == ' ' && |line| > n + 1;
    assert Counters.IsDigit(line[n + 1]) by { assert line[n + 1] == Counters.Decimal(g.last)[0]; }
    assert forall i | 0 <= i < 3 :: status[i] == status[..3][i];
    assert forall i | 0 <= i < n :: g.name[i] == line[i];
  }

  /** A group's line can look like one status line only, when the group is named "211". */
  lemma {:induction false} GroupLineIsPlain(g: Listed)
    requires Served(g)
    ensures PlainLine(GroupLine(g)) && !("." <= GroupLine(g))
    ensures !Quiet(GroupLine(g)) ==> S211 <= GroupLine(g) && g.name == "211"
  {
    var line := GroupLine(g);
    NoStatus(g, S200);
    NoStatus(g, S381);
    NoStatus(g, S281);
    NoStatus(g, S502);
    NoStatus(g, S205);
    NoStatus(g, S215);
    NoStatus(g, S211_LIST);
    assert line[0] == g.name[0];
    GroupLineHasNoCr(g);
    CodeIsName(g);
  }

  lemma {:induction false} CodeIsName(g: Listed)
    requires Served(g)
    ensures S211 <= GroupLine(g) <==> g.name == "211"
  {
    var line, n := GroupLine(g), |g.name|;
    assert line[..n] == g.name && line[n] == ' ';
    assert S211[..3] == "211" && S211[3] == ' ' && |S211| == 4;
    assert forall i | 0 <= i < n :: g.name[i] == line[i];
    assert S211 <= line ==> line[..4] == S211 && line[..3] == "211" && line[3] == ' ';
    assert g.name == "211" ==> line[..4] == "211" + " ";
  }

  lemma {:induction false} GroupLineHasNoCr(g: Listed)
    requires Served(g)
    ensures '\r' !in GroupLine(g)
  {
  }

  lemma {:induction false} WordHasNoBlanks(s: string)
    requires ' ' !in s
    ensures Blanks(s) == 0
  {
    if s != "" {
      WordHasNoBlanks(s[1..]);
    }
  }

  lemma {:induction false} GroupLineHasThree(g: Listed)
    requires Served(g)
    ensures Blanks(GroupLine(g)) == 3
  {
    hide Blanks, Counters.Decimal;
    var last, first, flag := Counters.Decimal(g.last), Counters.Decimal(g.first), if g.canPost then "y" else "n";
    DecimalIsNumber(g.last);
    DecimalIsNumber(g.first);
    WordHasNoBlanks(g.name);
    WordHasNoBlanks(last);
    WordHasNoBlanks(first);
    WordHasNoBlanks(flag);
    OneBlank();
    BlanksConcat(first + " ", flag);
    BlanksConcat(first, " ");
    BlanksConcat(last + " ", first + " " + flag);
    BlanksConcat(last, " ");
    BlanksConcat(g.name + " ", last + " " + (first + " " + flag));
    BlanksConcat(g.name, " ");
  }

  lemma {:induction false} OneBlank()
    ensures Blanks(" ") == 1
  {
    assert " "[1..] == "";
  }

  lemma {:induction false} GroupLinesAre(groups: seq<Listed>)
    requires AllServed(groups)
    ensures var ls := GroupLines(groups);
            && PlainLines(ls) && NoDotStarts(ls) && ParseGroups(ls) == groups && Exact(ls)
            && forall i | 0 <= i < |ls| :: Quiet(ls[i]) || S211 <= ls[i]
  {
    hide ParseGroup, GroupLine, Served, PlainLine, Quiet, Blanks, Listable;
    if groups != [] {
      assert AllServed(groups[1..]) by {
        forall i | 0 <= i < |groups[1..]| ensures groups[1..][i] == groups[i + 1] {}
      }
      GroupLinesAre(groups[1..]);
      assert Served(groups[0]) && Listable(groups[0]) by { ServedIsListable(groups[0]); }
      GroupLineIsPlain(groups[0]);
      GroupReadsBack(groups[0]);
      GroupLineHasThree(groups[0]);
      assert groups == [groups[0]] + groups[1..];
    }
  }

  lemma {:induction false} ServedIsListable(g: Listed)
    requires Served(g)
    ensures Listable(g)
  {
  }

  /** No event leaves over a text that starts with "211 ". */
  predicate NoCodeLeft(batches: seq<seq<string>>) {
    forall q | q in Leftovers("", batches) :: !(S211 <= q)
  }

  /** For a list of groups: that is the same as leaving over no status text. */
  lemma {:induction false} CodesAreStatuses(ls: seq<string>, batches: seq<seq<string>>)
    requires PlainLines(ls) && NoDotStarts(ls) && forall i | 0 <= i < |ls| :: Quiet(ls[i]) || S211 <= ls[i]
    requires Join(Flat(batches)) == Block(ls) && EndsLines("", Flat(batches))
    ensures NoCodeLeft(batches) <==> QuietUntilDot("", batches)
  {
    hide Quiet, PlainLines, Block, Leftovers, EndsLines, Join, Flat, NoDotStarts;
    assert "" + Join(Flat(batches)) == Join(Flat(batches));
    LeftoversAreStarts(ls, "", batches);
    forall q | q in Leftovers("", batches) ensures Quiet(q) <==> !(S211 <= q) {
      CodeIsStatus(ls, q);
    }
    if QuietUntilDot("", batches) {
      UntilDotIsAll(ls, "", batches);
    } else if QuietLeftovers("", batches) {
      QuietIsUntilDot("", batches);
    }
  }

  lemma {:induction false} CodeIsStatus(ls: seq<string>, q: string)
    requires Starts(q, ls) && forall i | 0 <= i < |ls| :: Quiet(ls[i]) || S211 <= ls[i]
    ensures Quiet(q) <==> !(S211 <= q)
  {
    hide Quiet;
    CodeIsNotQuiet(q);
    EmptyIsQuiet("", "");
    if q != "" {
      var k :| 0 <= k <= |ls| && q <= Block(ls[k..]);
      var l := if ls[k..] == [] then "." else ls[k];
      var b := Block(ls[k..]);
      assert |l| < |b| && b[..|l|] == l && b[|l|] == '\r';
      if Quiet(l) {
        StartOfQuietIsQuiet(l, q, b);
      } else if !Quiet(q) {
        StatusIsLong(q);
        assert q[..4] == b[..4] == l[..4] == S211;
      }
    }
  }

  lemma {:induction false} CodeIsNotQuiet(q: string)
    ensures S211 <= q ==> !Quiet(q)
  {
  }

  lemma {:induction false} StatusIsLong(q: string)
    ensures !Quiet(q) ==> |q| >= 4
  {
  }

  /** In a list without dots at line starts the only dot that can be left over is the last. */
  lemma {:induction false} UntilDotIsAll(ls: seq<string>, carry: string, batches: seq<seq<string>>)
    requires PlainLines(ls) && NoDotStarts(ls) && EndsLines(carry, Flat(batches)) && QuietUntilDot(carry, batches)
    requires carry + Join(Flat(batches)) == Block(ls) || carry + Join(Flat(batches)) == ""
    ensures QuietLeftovers(carry, batches)
    decreases |batches|
  {
    hide Quiet, PlainLines, Block, Carry, EndsLines, Join, NoDotStarts, QuietLeftovers;
    if batches == [] {
      NothingLeftOver(carry);
    } else {
      var batch, more := batches[0], batches[1..];
      var carry', t := Carry(carry, batch), Join(Flat(more));
      QuietNext(carry, batches);
      EndsConcat(carry, batch, Flat(more));
      JoinConcat(batch, Flat(more));
      FirstChunk(carry, batch);
      EmptyIsQuiet("", "");
      if carry + Join(Flat(batches)) == "" {
        NothingLeft(carry, batch, t);
        UntilDotIsAll(ls, carry, more);
      } else {
        var k := BlockLeftover(ls, carry, batch, t);
        RestLines(ls, k);
        NoDotsLater(ls, k);
        if batch != [] && carry' == "." {
          DotStartsLine(ls, k, t);
          NoTextLines();
          OrdinaryLeftovers([], ".", more);
        } else {
          UntilDotIsAll(ls[k..], carry', more);
        }
      }
    }
  }

  lemma {:induction false} NothingLeftOver(carry: string)
    ensures QuietLeftovers(carry, [])
  {
  }

  lemma {:induction false} NoTextLines()
    ensures TextLines([])
  {
  }

  /** The LIST reply starts the list. */
  lemma {:induction false} ListStarts(r: Reader, follows: string)
    requires r.isOpen && r.connected && !r.resultsComing && r.delegate == GroupLister && S215 <= follows
    ensures var r' := Take(Perform(r, CallListGroups), Arrive([follows]));
            && Listing(r') && r'.response == ""
            && r'.log == r.log + [Sent(List)] + [Heard(follows)]
            && Told(r'.log, GroupsOf) == Told(r.log, GroupsOf) && DoneIn(r'.log) == DoneIn(r.log)
  {
    hide Take, Notify, Told, DoneIn;
    var r1 := Perform(r, CallListGroups);
    StatusRead(r1, follows);
    StatusesDiffer(S215, S200, 1, follows);
    StatusesDiffer(S215, S381, 0, follows);
    StatusesDiffer(S215, S281, 1, follows);
    StatusesDiffer(S215, S502, 0, follows);
    StatusesDiffer(S215, S205, 1, follows);
    ToldSnoc(r.log, Sent(List), GroupsOf);
    ToldSnoc(r1.log, Heard(follows), GroupsOf);
    assert Told(r.log, GroupsOf) + [] + [] == Told(r.log, GroupsOf);
  }

  /** From the request on: for every list of groups, cut into reads that leave a line end each and
      batched in any way, the command is told exactly these groups, in order, with their numbers
      and posting flags, if and only if no event leaves over a text that starts with "211 ", as the
      line of a group named "211" does. It is then told "Done" once and closes the reader. */
  lemma {:induction false} GroupsComeBackIff(r: Reader, follows: string, groups: seq<Listed>, batches: seq<seq<string>>)
    requires r.isOpen && r.connected && !r.resultsComing && r.delegate == GroupLister && S215 <= follows
    requires AllServed(groups) && Join(Flat(batches)) == Block(GroupLines(groups)) && EndsLines("", Flat(batches))
    ensures var r' := Exec(r, [User(CallListGroups), Arrive([follows])] + Arrivals(batches));
            && (NoCodeLeft(batches) <==> Told(r'.log, GroupsOf) == Told(r.log, GroupsOf) + groups)
            && (NoCodeLeft(batches) ==> !r'.isOpen && DoneIn(r'.log) == DoneIn(r.log) + 1)
  {
    hide Perform, Deliver, Told, DoneIn, PlainLines, EndsLines, Join, DotComesLast, ParseGroups, Block, NoDotStarts,
         NoCodeLeft, QuietUntilDot, Exact, Quiet, Flat, AllServed, GroupLines;
    ListStarts(r, follows);
    var r1 := Perform(r, CallListGroups);
    var r2 := Take(r1, Arrive([follows]));
    var ls := GroupLines(groups);
    GroupLinesAre(groups);
    CodesAreStatuses(ls, batches);
    StepsOf(r, follows, batches);
    if QuietUntilDot("", batches) {
      GroupsAreListedIff(r2, ls, batches);
    } else {
      DotLine();
      assert r2.response + Block(ls) == Block(ls);
      var _ := ListerRuns(r2, ls, batches);
    }
  }

  lemma {:induction false} StepsOf(r: Reader, follows: string, batches: seq<seq<string>>)
    ensures Exec(r, [User(CallListGroups), Arrive([follows])] + Arrivals(batches))
         == Exec(Take(Perform(r, CallListGroups), Arrive([follows])), Arrivals(batches))
  {
    hide Perform, Deliver;
    var r1 := Perform(r, CallListGroups);
    var steps := [User(CallListGroups), Arrive([follows])] + Arrivals(batches);
    assert steps[0] == User(CallListGroups) && steps[1..][0] == Arrive([follows]);
    assert steps[1..][1..] == Arrivals(batches);
    assert Exec(r, steps) == Exec(r1, steps[1..]);
  }

  /** A witness: a group named "211" whose line is left over is not told, although the line is that
      of a group. */
  lemma {:induction false} Group211IsLost(r: Reader, g: Listed)
    requires Listing(r) && r.response == "" && Served(g) && g.name == "211"
    ensures var r' := Exec(r, Arrivals([[CRLF + GroupLine(g)], [CRLF + "." + CRLF]]));
            ParseGroup(GroupLine(g)) == Some(g) && Told(r'.log, GroupsOf) == Told(r.log, GroupsOf)
  {
    hide Exec, Told, GroupLine, ParseGroup, QuietUntilDot, Flat, Join, EndsLines, Block, Blanks, Midway, Served;
    ServedIsListable(g);
    GroupReadsBack(g);
    var line, rest := GroupLine(g), CRLF + "." + CRLF;
    var ls, batches := ["", line], [[CRLF + line], [rest]];
    LostLines(g);
    GroupLineIsPlain(g);
    CodeIsName(g);
    LostEvents(line);
    assert Midway(r, ls, Join(Flat(batches))) by { LostStart(r, g); }
    var _ := ListerRuns(r, ls, batches);
    ArrivalsGrow(r, batches);
    ToldGrows(r.log, Exec(r, Arrivals(batches)).log, GroupsOf);
  }

  lemma {:induction false} LostStart(r: Reader, g: Listed)
    requires Listing(r) && r.response == "" && g.first >= 0 && g.last >= 0 && PlainLines(["", GroupLine(g)])
    requires Join(Flat([[CRLF + GroupLine(g)], [CRLF + "." + CRLF]])) == Block(["", GroupLine(g)])
    ensures Midway(r, ["", GroupLine(g)], Join(Flat([[CRLF + GroupLine(g)], [CRLF + "." + CRLF]])))
  {
    hide GroupLine, Block, Join, Flat, PlainLines;
    DotLine();
    assert r.response + Block(["", GroupLine(g)]) == Block(["", GroupLine(g)]);
  }

  lemma {:induction false} LostLines(g: Listed)
    requires Served(g)
    ensures var ls := ["", GroupLine(g)];
            PlainLines(ls) && Exact(ls) && ParseGroups(ls) == [g]
  {
    hide GroupLine, ParseGroup, Served, Blanks;
    ServedIsListable(g);
    GroupLineIsPlain(g);
    GroupReadsBack(g);
    GroupLineHasThree(g);
    EmptyLineIsNoGroup();
    NoBlanksInEnd();
    DotLine();
    var ls := ["", GroupLine(g)];
    assert ls[1..] == [GroupLine(g)] && [GroupLine(g)][1..] == [];
    assert ParseGroups([GroupLine(g)]) == [g] + ParseGroups([]) == [g];
  }

  lemma {:induction false} LostEvents(line: string)
    requires PlainLine(line) && S211 <= line
    ensures var batches := [[CRLF + line], [CRLF + "." + CRLF]];
            && Join(Flat(batches)) == Block(["", line]) && EndsLines("", Flat(batches)) && !QuietUntilDot("", batches)
  {
    hide HasCrlf, LastSplit, Quiet, Block;
    var c, rest := CRLF + line, CRLF + "." + CRLF;
    TwoReads(c, rest);
    DotLine();
    SplitUnique("", line);
    SplitUnique(line + CRLF + ".", "");
    assert "" + c == c == "" + CRLF + line && line + rest == (line + CRLF + ".") + CRLF + "";
    OneEnd("", c);
    OneEnd(line, rest);
    EndsConcat("", [c], [rest]);
    assert [c] + [rest] == [c, rest];
    BlockOfMore(line, []);
    BlockOfMore("", [line]);
    assert [line] + [] == [line] && [""] + [line] == ["", line];
    assert Block(["", line]) == c + rest;
    CodeIsNotQuiet(line);
    EmptyIsQuiet("", "");
    assert [[c], [rest]][0] == [c];
  }
}
