/** A data block: lines, each with its end, and the closing dot. What is read of it at any line
    end, and what waits for one. */
module NewsBlock {
  import opened NewsText
  import opened NewsModel
  import opened NewsStream

  /** A line as a block may hold it: section 3.1.1 of RFC 3977 doubles a leading dot, so no line is
      a lone dot. */
  predicate PlainLine(l: string) {
    !HasCrlf(l) && l != "."
  }

  predicate PlainLines(ls: seq<string>) {
    forall i | 0 <= i < |ls| :: PlainLine(ls[i])
  }

  /** A plain line that does not look like a status line of this reader. */
  predicate TextLine(l: string) {
    PlainLine(l) && Quiet(l)
  }

  predicate TextLines(ls: seq<string>) {
    forall i | 0 <= i < |ls| :: TextLine(ls[i])
  }

  function Block(ls: seq<string>): string {
    if ls == [] then "." + CRLF else ls[0] + CRLF + Block(ls[1..])
  }

  /** Splitting leaves out empty lines. */
  function NonEmpty(ls: seq<string>): seq<string> {
    if ls == [] then [] else Piece(ls[0]) + NonEmpty(ls[1..])
  }

  lemma {:induction false} RestLines(ls: seq<string>, k: nat)
    requires k <= |ls|
    ensures PlainLines(ls) ==> PlainLines(ls[k..]) && PlainLines(ls[..k])
    ensures TextLines(ls) ==> TextLines(ls[k..]) && TextLines(ls[..k])
  {
    forall i | 0 <= i < |ls[k..]| ensures ls[k..][i] == ls[i + k] {}
    forall i | 0 <= i < k ensures ls[..k][i] == ls[i] {}
  }

  lemma {:induction false} LineOf(l: string)
    requires !HasCrlf(l)
    ensures Lines(l) == Piece(l)
  {
    LineAlone(l, "");
    assert "" + l == l;
  }

  lemma {:induction false} LinesAre(s: string)
    ensures Lines(s) == LinesFrom(s, "")
  {
  }

  lemma {:induction false} DotLine()
    ensures Lines(".") == ["."] && Lines("") == [] && !HasCrlf(".") && !HasCrlf("")
  {
    LineOf(".");
  }

  /** Cutting a block at a line end: the lines before it are the next lines of the block, and the
      dot exactly when nothing comes after it; what comes after it is the rest of the block. */
  lemma {:induction false} CutBlock(ls: seq<string>, p: string, u: string) returns (k: nat)
    requires PlainLines(ls) && p + CRLF + u == Block(ls)
    ensures k <= |ls| && (if u == "" then k == |ls| else u == Block(ls[k..]))
    ensures Lines(p) == NonEmpty(ls[..k]) + (if u == "" then ["."] else [])
    decreases |ls|
  {
    DotLine();
    if ls == [] {
      k := 0;
      FirstEnd(".", "", p, u);
      assert |p| + 2 + |u| == 3;
      assert NonEmpty(ls[..0]) + ["."] == ["."];
    } else {
      var l, rest := ls[0], Block(ls[1..]);
      assert PlainLine(l);
      FirstEnd(l, rest, p, u);
      LineOf(l);
      if |p| == |l| {
        k := 1;
        assert |rest| >= 2;
        assert ls[..1][1..] == [] && NonEmpty(ls[..1]) == Piece(l) + [];
        assert Piece(l) + [] == Piece(l) && Piece(l) + [] + [] == Piece(l);
      } else {
        var p' := p[|l| + 2..];
        RestLines(ls, 1);
        var k' := CutBlock(ls[1..], p', u);
        k := k' + 1;
        LinesConcat(l, p');
        assert ls[1..][k'..] == ls[k..];
        assert ls[..k][1..] == ls[1..][..k'] && ls[..k][0] == l;
        assert Piece(l) + (NonEmpty(ls[1..][..k']) + (if u == "" then ["."] else []))
            == NonEmpty(ls[..k]) + (if u == "" then ["."] else []);
      }
    }
  }

  lemma {:induction false} NotDotsConcat(a: seq<string>, b: seq<string>)
    ensures NotDots(a + b) == NotDots(a) + NotDots(b)
    decreases |a|
  {
    if a == [] {
      assert a + b == b;
    } else {
      assert (a + b)[0] == a[0] && (a + b)[1..] == a[1..] + b;
      NotDotsConcat(a[1..], b);
    }
  }

  lemma {:induction false} NonEmptyHasNoDot(ls: seq<string>)
    requires PlainLines(ls)
    ensures "." !in NonEmpty(ls)
  {
    if ls != [] {
      assert PlainLine(ls[0]);
      RestLines(ls, 1);
      NonEmptyHasNoDot(ls[1..]);
    }
  }

  lemma {:induction false} NonEmptyIsAll(ls: seq<string>)
    requires forall i | 0 <= i < |ls| :: ls[i] != ""
    ensures NonEmpty(ls) == ls
  {
    if ls != [] {
      NonEmptyIsAll(ls[1..]);
      assert ls == [ls[0]] + ls[1..];
    }
  }

  lemma {:induction false} BlockHasEnd(ls: seq<string>)
    ensures HasCrlf(Block(ls))
  {
    var l := if ls == [] then "." else ls[0];
    assert Block(ls)[|l|] == '\r' && Block(ls)[|l|+1] == '\n';
  }

  lemma {:induction false} LinesOfBlock(ls: seq<string>)
    requires PlainLines(ls)
    ensures Lines(Block(ls)) == NonEmpty(ls) + ["."]
  {
    hide Lines;
    DotLine();
    if ls == [] {
      LinesConcat(".", "");
      assert "." + CRLF + "" == "." + CRLF;
      assert ["."] + [] == [] + ["."];
    } else {
      assert PlainLine(ls[0]);
      RestLines(ls, 1);
      LinesOfBlock(ls[1..]);
      LinesConcat(ls[0], Block(ls[1..]));
      LineOf(ls[0]);
      assert Piece(ls[0]) + (NonEmpty(ls[1..]) + ["."]) == NonEmpty(ls) + ["."];
    }
  }

  /** What waits for its line end is no status line. */
  lemma {:induction false} LeftoverIsQuiet(ls: seq<string>, q: string, t: string)
    requires TextLines(ls) && q + t == Block(ls)
    ensures Quiet(q)
  {
    var l := if ls == [] then "." else ls[0];
    assert ls != [] ==> TextLine(ls[0]);
    assert Quiet(l) by { assert Quiet("."); }
    assert Block(ls)[|l|] == '\r' && Block(ls)[..|l|] == l;
    assert q == Block(ls)[..|q|];
    StartOfQuietIsQuiet(l, q, Block(ls));
  }

  lemma {:induction false} StartOfQuietIsQuiet(l: string, q: string, b: string)
    requires Quiet(l) && q <= b && |l| < |b| && l == b[..|l|] && b[|l|] == '\r'
    ensures Quiet(q)
  {
    LoginStatusesAreLines();
    ListStatusesAreLines();
  }

  lemma {:induction false} LoginStatusesAreLines()
    ensures '\r' !in S200 && '\r' !in S381 && '\r' !in S281 && '\r' !in S502
  {
  }

  lemma {:induction false} ListStatusesAreLines()
    ensures '\r' !in S205 && '\r' !in S215 && '\r' !in S211_LIST && '\r' !in S211
  {
  }

  /** Reads that leave a line end each leave over the start of a line, or nothing. */
  lemma {:induction false} BlockLeftover(ls: seq<string>, carry: string, chunks: seq<string>, t: string)
    returns (k: nat)
    requires PlainLines(ls) && carry + (Join(chunks) + t) == Block(ls) && EndsLines(carry, chunks)
    ensures k <= |ls| && (Carry(carry, chunks) + t == "" || Carry(carry, chunks) + t == Block(ls[k..]))
    decreases |chunks|
  {
    hide Lines, LastSplit, HasCrlf, Block, PlainLines, Join, EndsLines, Carry, NonEmpty;
    FirstChunk(carry, chunks);
    if chunks == [] {
      k := 0;
      assert "" + t == t && ls[0..] == ls;
    } else {
      var buffer, more := carry + chunks[0], chunks[1..];
      var (p, q) := LastSplit(buffer);
      var rest := Join(more) + t;
      assert carry + (Join(chunks) + t) == buffer + rest == p + CRLF + (q + rest);
      k := CutBlock(ls, p, q + rest);
      if q + rest == "" {
        NothingLeft(q, more, t);
        FirstChunk(q, more);
      } else {
        RestLines(ls, k);
        var j := BlockLeftover(ls[k..], q, more, t);
        assert ls[k..][j..] == ls[k + j..];
        k := k + j;
      }
    }
  }

  lemma {:induction false} FirstChunk(carry: string, chunks: seq<string>)
    ensures chunks == [] ==> Join(chunks) == "" && Carry(carry, chunks) == carry
    ensures chunks != [] ==>
              && Join(chunks) == chunks[0] + Join(chunks[1..])
              && Carry(carry, chunks) == Carry(LastSplit(carry + chunks[0]).1, chunks[1..])
              && (EndsLines(carry, chunks) ==>
                    HasCrlf(carry + chunks[0]) && EndsLines(LastSplit(carry + chunks[0]).1, chunks[1..]))
  {
  }

  lemma {:induction false} NothingLeft(q: string, chunks: seq<string>, t: string)
    requires q + (Join(chunks) + t) == ""
    ensures q == "" && t == ""
    ensures EndsLines(q, chunks) ==> chunks == []
  {
    assert |q + (Join(chunks) + t)| == |q| + |Join(chunks)| + |t|;
    if chunks != [] {
      assert |Join(chunks)| == |chunks[0]| + |Join(chunks[1..])|;
      assert q + chunks[0] == "";
    }
  }

  /** The start of what is left of a block at the end of some line. */
  ghost predicate Starts(q: string, ls: seq<string>) {
    q == "" || exists k | 0 <= k <= |ls| :: q <= Block(ls[k..])
  }

  /** Everything that events leave over of a block is the start of a line, and of what follows it,
      when each read leaves a line end. */
  lemma {:induction false} LeftoversAreStarts(ls: seq<string>, carry: string, batches: seq<seq<string>>)
    requires PlainLines(ls) && EndsLines(carry, Flat(batches))
    requires carry + Join(Flat(batches)) == Block(ls) || carry + Join(Flat(batches)) == ""
    ensures forall q | q in Leftovers(carry, batches) :: Starts(q, ls)
    decreases |batches|
  {
    hide Block, PlainLines, Carry, EndsLines, Join, Starts;
    if batches != [] {
      var batch, t := batches[0], Join(Flat(batches[1..]));
      var carry' := Carry(carry, batch);
      EndsConcat(carry, batch, Flat(batches[1..]));
      JoinConcat(batch, Flat(batches[1..]));
      if carry + Join(Flat(batches)) == "" {
        NothingLeft(carry, batch, t);
        FirstChunk(carry, batch);
        LeftoversAreStarts(ls, carry, batches[1..]);
      } else {
        var k := BlockLeftover(ls, carry, batch, t);
        RestLines(ls, k);
        LeftoversAreStarts(ls[k..], carry', batches[1..]);
        assert Starts(carry', ls) by { StartsAt(ls, k, carry', t); }
        forall q | q in Leftovers(carry', batches[1..]) ensures Starts(q, ls) {
          StartsLater(ls, k, q);
        }
      }
    }
  }

  lemma {:induction false} StartsAt(ls: seq<string>, k: nat, q: string, t: string)
    requires k <= |ls| && (q + t == "" || q + t == Block(ls[k..]))
    ensures Starts(q, ls)
  {
    assert |q + t| == |q| + |t| && q <= q + t;
  }

  lemma {:induction false} StartsLater(ls: seq<string>, k: nat, q: string)
    requires k <= |ls| && Starts(q, ls[k..])
    ensures Starts(q, ls)
  {
    hide Block;
    if q != "" {
      var j :| 0 <= j <= |ls[k..]| && q <= Block(ls[k..][j..]);
      assert ls[k..][j..] == ls[k + j..];
    }
  }

  /** When no line looks like a status line, no event leaves over a status text, however the block
      is cut into reads that leave a line end each. */
  lemma {:induction false} OrdinaryLeftovers(ls: seq<string>, carry: string, batches: seq<seq<string>>)
    requires TextLines(ls) && EndsLines(carry, Flat(batches))
    requires carry + Join(Flat(batches)) == Block(ls) || carry + Join(Flat(batches)) == ""
    ensures QuietLeftovers(carry, batches)
  {
    hide Quiet, Block, TextLines, EndsLines, Join, Leftovers;
    PlainOf(ls);
    LeftoversAreStarts(ls, carry, batches);
    EmptyIsQuiet("", "");
    forall q | q in Leftovers(carry, batches) ensures Quiet(q) {
      if q != "" {
        var k :| 0 <= k <= |ls| && q <= Block(ls[k..]);
        RestLines(ls, k);
        LeftoverIsQuiet(ls[k..], q, Block(ls[k..])[|q|..]);
      }
    }
  }

  lemma {:induction false} EmptyIsQuiet(q: string, t: string)
    ensures q + t == "" ==> Quiet(q)
    ensures Quiet(".")
  {
    assert |q + t| == |q| + |t|;
  }

  lemma {:induction false} BlockOfMore(l: string, ls: seq<string>)
    ensures Block([l] + ls) == l + CRLF + Block(ls) && Block([]) == "." + CRLF
  {
    assert ([l] + ls)[1..] == ls;
  }

  lemma {:induction false} PlainOf(ls: seq<string>)
    requires TextLines(ls)
    ensures PlainLines(ls)
  {
    forall i | 0 <= i < |ls| ensures PlainLine(ls[i]) {
      assert TextLine(ls[i]);
    }
  }
}
