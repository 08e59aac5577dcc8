/** The "(n/m)" counter of a multipart subject: the scanner that stands for the regular
    expression, the number it yields and the subject without it. */
module Counters {
  import opened Wrappers

  predicate IsDigit(c: char) {
    '0' <= c <= '9'
  }

  /** The end of the run of digits that starts at `i`. */
  function DigitsEnd(s: string, i: nat): (e: nat)
    requires i <= |s|
    ensures i <= e <= |s|
    ensures forall j | i <= j < e :: IsDigit(s[j])
    ensures e < |s| ==> !IsDigit(s[e])
    decreases |s| - i
  {
    if i < |s| && IsDigit(s[i]) then DigitsEnd(s, i + 1) else i
  }

  /** The end of a match of `open \d+ / \d+ close` that starts at `i`. */
  function MatchAt(s: string, i: nat, open: char, close: char): (e: Option<nat>)
    requires i <= |s|
    ensures e.Some? ==> i + 5 <= e.value <= |s|
  {
    if i == |s| || s[i] != open then None else
    var j := DigitsEnd(s, i + 1);
    if j == i + 1 || j == |s| || s[j] != '/' then None else
    var k := DigitsEnd(s, j + 1);
    if k == j + 1 || k == |s| || s[k] != close then None else Some(k + 1)
  }

  /** Which counters a pattern accepts: round ones only, or square ones too. */
  datatype Pattern = Round | RoundOrSquare

  function CounterAt(s: string, i: nat, p: Pattern): (e: Option<nat>)
    requires i <= |s|
    ensures e.Some? ==> i < e.value <= |s|
  {
    var r := MatchAt(s, i, '(', ')');
    if r.Some? || p.Round? then r else MatchAt(s, i, '[', ']')
  }

  /** All matches from `i` on, leftmost first and not overlapping. */
  function Matches(s: string, i: nat, p: Pattern): seq<(nat, nat)>
    requires i <= |s|
    decreases |s| - i
  {
    if i == |s| then []
    else
      var e := CounterAt(s, i, p);
      if e.Some? then [(i, e.value)] + Matches(s, e.value, p) else Matches(s, i + 1, p)
  }

  /** `replacingOccurrences(of: what, with: "")`, from `i` on. */
  function Without(s: string, what: string): string
    requires what != ""
  {
    if s == "" then ""
    else if what <= s then Without(s[|what|..], what)
    else [s[0]] + Without(s[1..], what)
  }

  predicate Blank(c: char) {
    c == ' ' || c == '\t'
  }

  function TrimLeft(s: string): string {
    if s != "" && Blank(s[0]) then TrimLeft(s[1..]) else s
  }

  function TrimRight(s: string): string {
    if s != "" && Blank(s[|s| - 1]) then TrimRight(s[..|s| - 1]) else s
  }

  function Trim(s: string): string {
    TrimLeft(TrimRight(s))
  }

  const INT_MAX: nat := 0x7FFF_FFFF_FFFF_FFFF

  function DigitsValue(s: string): nat {
    if s == "" then 0
    else 10 * DigitsValue(s[..|s| - 1]) + (if IsDigit(s[|s| - 1]) then s[|s| - 1] as int - '0' as int else 0)
  }

  predicate AllDigits(d: string) {
    d != "" && forall i | 0 <= i < |d| :: IsDigit(d[i])
  }

  /** `Int(s)` on 64 bits: nil unless digits, a sign before them at most, and in range. */
  function IntOf(s: string): Option<int> {
    var negative := s != "" && s[0] == '-';
    var digits := if negative || (s != "" && s[0] == '+') then s[1..] else s;
    if !AllDigits(digits) then None
    else
      var v: int := DigitsValue(digits);
      if negative then (if v <= INT_MAX + 1 then Some(-v) else None) else if v <= INT_MAX then Some(v) else None
  }

  /** `split(separator: "/")`, which leaves empty pieces out. */
  function Split(s: string, sep: char): seq<string> {
    SplitFrom(s, sep, "")
  }

  function SplitFrom(s: string, sep: char, piece: string): seq<string> {
    if s == "" then (if piece == "" then [] else [piece])
    else if s[0] == sep then (if piece == "" then [] else [piece]) + SplitFrom(s[1..], sep, "")
    else SplitFrom(s[1..], sep, piece + [s[0]])
  }

  function FileNumber(s: string): int {
    var ms := Matches(s, 0, RoundOrSquare);
    if |ms| != 1 then 0 else
    var (i, e) := MatchSpan(s, ms);
    var num := Without(Without(s[i..e], "("), ")");
    var parts := Split(num, '/');
    if |parts| != 2 then 0 else
    match IntOf(parts[0])
    case Some(n) => n
    case None => 0
  }

  function NudeSubject(s: string): string {
    var ms := Matches(s, 0, RoundOrSquare);
    if |ms| != 1 then s else
    var (i, e) := MatchSpan(s, ms);
    Trim(Without(s, s[i..e]))
  }

  /** The dictionary key that `addArticle` computes: it looks for round counters only. */
  function Key(s: string): Option<string> {
    var ms := Matches(s, 0, Round);
    if |ms| != 1 then None else
    var (i, e) := MatchSpan(s, ms);
    Some(Trim(Without(s, s[i..e])))
  }

  /** The one match, with the bounds that make it a range of `s`. */
  function MatchSpan(s: string, ms: seq<(nat, nat)>): (span: (nat, nat))
    requires |ms| == 1 && (ms == Matches(s, 0, Round) || ms == Matches(s, 0, RoundOrSquare))
    ensures span == ms[0] && span.0 < span.1 <= |s|
  {
    MatchesInRange(s, 0, Round);
    MatchesInRange(s, 0, RoundOrSquare);
    ms[0]
  }

  lemma {:induction false} MatchesInRange(s: string, i: nat, p: Pattern)
    requires i <= |s|
    ensures forall m | m in Matches(s, i, p) :: i <= m.0 < m.1 <= |s| && CounterAt(s, m.0, p) == Some(m.1)
    decreases |s| - i
  {
    if i < |s| {
      var e := CounterAt(s, i, p);
      MatchesInRange(s, if e.Some? then e.value else i + 1, p);
    }
  }

  // ----- a counter's occurrences are its matches -----

  /** A match does not look beyond its end: wherever the text stands, it matches there. */
  lemma {:induction false} MatchMoves(s: string, i: nat, e: nat, t: string, j: nat, open: char, close: char)
    requires i <= e <= |s| && j + (e - i) <= |t|
    requires s[i..e] == t[j..j + (e - i)]
    requires !IsDigit(open) && !IsDigit(close) && MatchAt(s, i, open, close) == Some(e)
    ensures MatchAt(t, j, open, close) == Some(j + (e - i))
  {
    hide DigitsEnd;
    forall k | i <= k < e ensures s[k] == t[j + (k - i)] {
      assert s[k] == s[i..e][k - i];
      assert t[j + (k - i)] == t[j..j + (e - i)][k - i];
    }
    var a := DigitsEnd(s, i + 1);
    var b := DigitsEnd(s, a + 1);
    DigitsEndMoves(s, i + 1, a, t, j + 1);
    DigitsEndMoves(s, a + 1, b, t, j + (a + 1 - i));
  }

  lemma {:induction false} DigitsEndMoves(s: string, i: nat, e: nat, t: string, j: nat)
    requires i <= e < |s| && j + (e - i) < |t| && DigitsEnd(s, i) == e
    requires forall k | i <= k <= e :: s[k] == t[j + (k - i)]
    ensures DigitsEnd(t, j) == j + (e - i)
  {
    forall k | j <= k < j + (e - i) ensures IsDigit(t[k]) {
      assert s[i + (k - j)] == t[j + ((i + (k - j)) - i)];
    }
    assert s[e] == t[j + (e - i)];
  }

  /** The text of a round counter occurs only where there is a match. */
  lemma {:induction false} NoOccurrence(s: string, i: nat, e: nat, j: nat)
    requires i <= e <= |s| && j <= |s| && CounterAt(s, i, Round) == Some(e)
    requires CounterAt(s, j, Round).None?
    ensures !(s[i..e] <= s[j..])
  {
    if s[i..e] <= s[j..] {
      assert s[j..][..e - i] == s[j..j + (e - i)];
      MatchMoves(s, i, e, s, j, '(', ')');
    }
  }

  /** Up to the only match, no position matches; none does after it either. */
  lemma {:induction false} OnlyMatch(s: string, from: nat, p: Pattern, m: (nat, nat))
    requires from <= |s| && Matches(s, from, p) == [m]
    ensures from <= m.0 < m.1 <= |s|
    ensures forall j | from <= j < m.0 :: CounterAt(s, j, p).None?
    ensures CounterAt(s, m.0, p) == Some(m.1) && Matches(s, m.1, p) == []
    decreases |s| - from
  {
    var e := CounterAt(s, from, p);
    if e.Some? {
      assert Matches(s, from, p)[0] == m;
      assert Matches(s, from, p)[1..] == Matches(s, e.value, p);
    } else {
      OnlyMatch(s, from + 1, p, m);
    }
  }

  lemma {:induction false} NoMatchAfter(s: string, from: nat, p: Pattern)
    requires from <= |s| && Matches(s, from, p) == []
    ensures forall j | from <= j < |s| :: CounterAt(s, j, p).None?
    decreases |s| - from
  {
    if from < |s| {
      NoMatchAfter(s, from + 1, p);
    }
  }

  lemma {:induction false} WithoutAbsent(s: string, what: string)
    requires what != "" && forall j | 0 <= j < |s| :: !(what <= s[j..])
    ensures Without(s, what) == s
  {
    if s != "" {
      assert s[0..] == s;
      forall j | 0 <= j < |s[1..]| ensures !(what <= s[1..][j..]) {
        assert s[1..][j..] == s[j + 1..];
      }
      WithoutAbsent(s[1..], what);
    }
  }

  lemma {:induction false} WithoutOnce(a: string, what: string, b: string)
    requires what != ""
    requires forall j | 0 <= j < |a| :: !(what <= a[j..] + what + b)
    requires forall j | 0 <= j < |b| :: !(what <= b[j..])
    ensures Without(a + what + b, what) == a + b
  {
    var s := a + what + b;
    if a == "" {
      assert s == what + b && s[|what|..] == b && a + b == b;
      WithoutAbsent(b, what);
    } else {
      assert a[0..] == a;
      assert !(what <= s);
      assert s[0] == a[0] && s[1..] == a[1..] + what + b;
      forall j | 0 <= j < |a[1..]| ensures !(what <= a[1..][j..] + what + b) {
        assert a[1..][j..] == a[j + 1..];
      }
      WithoutOnce(a[1..], what, b);
      assert [a[0]] + (a[1..] + b) == a + b;
    }
  }

  lemma {:induction false} Tail(s: string, i: nat, e: nat, j: nat)
    requires j <= i <= e <= |s|
    ensures s[..i][j..] + s[i..e] + s[e..] == s[j..]
  {
  }

  lemma {:induction false} CutOnce(s: string, i: nat, e: nat)
    requires i < e <= |s|
    requires forall j | 0 <= j < i :: !(s[i..e] <= s[j..])
    requires forall j | e <= j < |s| :: !(s[i..e] <= s[j..])
    ensures Without(s, s[i..e]) == s[..i] + s[e..]
  {
    var a, what, b := s[..i], s[i..e], s[e..];
    forall j | 0 <= j < |a| ensures !(what <= a[j..] + what + b) {
      Tail(s, i, e, j);
    }
    forall j | 0 <= j < |b| ensures !(what <= b[j..]) {
    }
    Tail(s, i, e, 0);
    assert a[0..] == a && s[0..] == s;
    WithoutOnce(a, what, b);
  }

  /** Removing the text of the only round counter everywhere removes just that counter. */
  lemma {:induction false} CounterRemoved(s: string, i: nat, e: nat)
    requires Matches(s, 0, Round) == [(i, e)]
    ensures i < e <= |s| && Without(s, s[i..e]) == s[..i] + s[e..]
  {
    OnlyMatch(s, 0, Round, (i, e));
    NoMatchAfter(s, e, Round);
    forall j | 0 <= j < i ensures !(s[i..e] <= s[j..]) {
      NoOccurrence(s, i, e, j);
    }
    forall j | e <= j < |s| ensures !(s[i..e] <= s[j..]) {
      NoOccurrence(s, i, e, j);
    }
    CutOnce(s, i, e);
  }

  /** A subject with one round counter has as key what stands before and after it, trimmed. */
  lemma {:induction false} KeyIsRest(s: string, i: nat, e: nat)
    requires Matches(s, 0, Round) == [(i, e)]
    ensures i < e <= |s| && Key(s) == Some(Trim(s[..i] + s[e..]))
  {
    CounterRemoved(s, i, e);
  }

  // ----- round and square counters -----

  lemma {:induction false} NoRoundThrough(s: string, i: nat, e: nat)
    requires i <= e <= |s| && forall k | i <= k < e :: s[k] != '('
    ensures Matches(s, i, Round) == Matches(s, e, Round)
    decreases e - i
  {
    if i < e {
      NoRoundThrough(s, i + 1, e);
    }
  }

  /** A square counter hides no round one, so the wider pattern finds every round counter. */
  lemma {:induction false} RoundsAreAmong(s: string, i: nat)
    requires i <= |s|
    ensures forall m | m in Matches(s, i, Round) :: m in Matches(s, i, RoundOrSquare)
    ensures |Matches(s, i, Round)| <= |Matches(s, i, RoundOrSquare)|
    decreases |s| - i
  {
    if i < |s| {
      var e := CounterAt(s, i, RoundOrSquare);
      if e.Some? && CounterAt(s, i, Round).None? {
        NoRoundThrough(s, i, e.value);
        RoundsAreAmong(s, e.value);
      } else {
        RoundsAreAmong(s, if e.Some? then e.value else i + 1);
      }
    }
  }

  lemma {:induction false} TrimIsNotLonger(s: string)
    ensures |TrimLeft(s)| <= |s| && |TrimRight(s)| <= |s| && |Trim(s)| <= |s|
  {
    TrimLeftIsNotLonger(s);
    TrimRightIsNotLonger(s);
    TrimLeftIsNotLonger(TrimRight(s));
  }

  lemma {:induction false} TrimLeftIsNotLonger(s: string)
    ensures |TrimLeft(s)| <= |s|
  {
    if s != "" && Blank(s[0]) {
      TrimLeftIsNotLonger(s[1..]);
    }
  }

  lemma {:induction false} TrimRightIsNotLonger(s: string)
    ensures |TrimRight(s)| <= |s|
  {
    if s != "" && Blank(s[|s| - 1]) {
      TrimRightIsNotLonger(s[..|s| - 1]);
    }
  }

  /** For a subject with a key the title shown is the key if and only if it holds no counter
      besides the round one. With a square one the title is the whole subject and the number is 0,
      whatever part it is, so such parts of a row are not put in order. */
  lemma {:induction false} TitleIsKeyIff(s: string, i: nat, e: nat)
    requires Matches(s, 0, Round) == [(i, e)]
    ensures Key(s) == Some(NudeSubject(s)) <==> |Matches(s, 0, RoundOrSquare)| == 1
    ensures |Matches(s, 0, RoundOrSquare)| != 1 ==> NudeSubject(s) == s && FileNumber(s) == 0
  {
    RoundsAreAmong(s, 0);
    var all := Matches(s, 0, RoundOrSquare);
    assert (i, e) in Matches(s, 0, Round);
    CounterRemoved(s, i, e);
    KeyIsRest(s, i, e);
    TrimIsNotLonger(s[..i] + s[e..]);
    if |all| == 1 {
      assert all[0] == (i, e);
    }
  }

  // ----- a counter that is written is read back -----

  function Decimal(n: nat): (d: string)
    ensures d != "" && forall i | 0 <= i < |d| :: IsDigit(d[i])
  {
    if n < 10 then [('0' as int + n) as char]
    else Decimal(n / 10) + [('0' as int + n % 10) as char]
  }

  lemma {:induction false} DecimalReadsBack(n: nat)
    ensures DigitsValue(Decimal(n)) == n
  {
    if n < 10 {
      assert Decimal(n)[..0] == "";
    } else {
      var d := Decimal(n);
      assert d[..|d| - 1] == Decimal(n / 10);
      DecimalReadsBack(n / 10);
    }
  }

  /** The counter text itself. */
  function Counter(n: string, m: string): string {
    "(" + n + "/" + m + ")"
  }

  lemma {:induction false} CounterMatches(pre: string, n: string, m: string)
    requires AllDigits(n) && AllDigits(m)
    ensures var s := pre + Counter(n, m); CounterAt(s, |pre|, Round) == Some(|s|)
  {
    var s := pre + Counter(n, m);
    var a := |pre| + 1 + |n|;
    assert s[|pre|] == '(' && s[a] == '/' && s[|s| - 1] == ')';
    forall j | |pre| + 1 <= j < a ensures IsDigit(s[j]) { assert s[j] == n[j - |pre| - 1]; }
    forall j | a + 1 <= j < |s| - 1 ensures IsDigit(s[j]) { assert s[j] == m[j - a - 1]; }
  }

  /** Text after a blank cannot turn text before it into a counter. */
  lemma {:induction false} MatchStaysBeforeBlank(base: string, rest: string, i: nat, open: char, close: char)
    requires i < |base| && open != ' ' && close != ' ' && !IsDigit(open) && !IsDigit(close)
    ensures MatchAt(base + " " + rest, i, open, close) == MatchAt(base, i, open, close)
  {
    var s := base + " " + rest;
    assert s[..|base|] == base && s[|base|] == ' ';
    var m := MatchAt(s, i, open, close);
    if m.Some? {
      var a := DigitsEnd(s, i + 1);
      var b := DigitsEnd(s, a + 1);
      assert forall k | i <= k < m.value :: s[k] == open || s[k] == close || s[k] == '/' || IsDigit(s[k]);
      assert m.value <= |base|;
      assert s[i..m.value] == base[i..i + (m.value - i)];
      MatchMoves(s, i, m.value, base, i, open, close);
    }
    var m' := MatchAt(base, i, open, close);
    if m'.Some? {
      assert base[i..m'.value] == s[i..i + (m'.value - i)];
      MatchMoves(base, i, m'.value, s, i, open, close);
    }
  }

  lemma {:induction false} OneCounter(base: string, n: string, m: string, i: nat, p: Pattern)
    requires i <= |base| && AllDigits(n) && AllDigits(m)
    requires Matches(base, i, p) == []
    ensures var s := base + " " + Counter(n, m); Matches(s, i, p) == [(|base| + 1, |s|)]
    decreases |base| - i
  {
    var s := base + " " + Counter(n, m);
    if i < |base| {
      MatchStaysBeforeBlank(base, Counter(n, m), i, '(', ')');
      MatchStaysBeforeBlank(base, Counter(n, m), i, '[', ']');
      OneCounter(base, n, m, i + 1, p);
    } else {
      assert s[i] == ' ';
      assert CounterAt(s, i, p).None?;
      CounterMatches(base + " ", n, m);
      assert Matches(s, |s|, p) == [];
      assert Matches(s, i + 1, p) == [(i + 1, |s|)] + Matches(s, |s|, p);
    }
  }

  lemma {:induction false} SplitPlain(s: string, sep: char, piece: string, rest: string)
    requires sep !in s
    ensures SplitFrom(s + rest, sep, piece) == SplitFrom(rest, sep, piece + s)
  {
    if s == "" {
      assert s + rest == rest && piece + s == piece;
    } else {
      assert (s + rest)[1..] == s[1..] + rest;
      SplitPlain(s[1..], sep, piece + [s[0]], rest);
      assert piece + [s[0]] + s[1..] == piece + s;
    }
  }

  lemma {:induction false} WithoutChar(s: string, c: char, rest: string)
    requires c !in s
    ensures Without(s + rest, [c]) == s + Without(rest, [c])
  {
    if s == "" {
      assert s + rest == rest;
    } else {
      assert (s + rest)[0] == s[0] && (s + rest)[1..] == s[1..] + rest;
      assert s[0] in s;
      WithoutChar(s[1..], c, rest);
    }
  }

  lemma {:induction false} ParenthesesRemoved(n: string, m: string)
    requires AllDigits(n) && AllDigits(m)
    ensures Without(Without(Counter(n, m), "("), ")") == n + "/" + m
  {
    var both := n + "/" + m;
    assert '(' !in both && ')' !in both;
    var inner := both + ")";
    assert Counter(n, m) == "(" + inner;
    assert Counter(n, m)[1..] == inner;
    WithoutChar(inner, '(', "");
    assert inner + "" == inner;
    assert ")"[1..] == "";
    WithoutChar(both, ')', ")");
    assert both + "" == both;
  }

  /** The text of a counter splits into its two numbers. */
  lemma {:induction false} CounterParts(n: string, m: string)
    requires AllDigits(n) && AllDigits(m)
    ensures Split(Without(Without(Counter(n, m), "("), ")"), '/') == [n, m]
  {
    ParenthesesRemoved(n, m);
    SplitPlain(n, '/', "", "/" + m);
    assert n + ("/" + m) == n + "/" + m;
    assert "" + n == n;
    assert ("/" + m)[1..] == m;
    SplitPlain(m, '/', "", "");
    assert m + "" == m && "" + m == m;
  }

  /** A counter written behind a base without counters is the only one, is read back as its
      number, and leaves the trimmed base as both title and key. Leading zeros are allowed;
      a number above the 64-bit range reads as 0. */
  lemma {:induction false} CounterRoundTrip(base: string, n: string, m: string)
    requires Matches(base, 0, RoundOrSquare) == [] && AllDigits(n) && AllDigits(m)
    ensures var s := base + " " + Counter(n, m);
            && Matches(s, 0, RoundOrSquare) == [(|base| + 1, |s|)]
            && Key(s) == Some(Trim(base))
            && NudeSubject(s) == Trim(base)
            && FileNumber(s) == (if DigitsValue(n) <= INT_MAX then DigitsValue(n) else 0)
  {
    var s := base + " " + Counter(n, m);
    RoundsAreAmong(base, 0);
    OneCounter(base, n, m, 0, RoundOrSquare);
    OneCounter(base, n, m, 0, Round);
    KeyIsRest(s, |base| + 1, |s|);
    assert s[..|base| + 1] + s[|s|..] == base + " ";
    assert s[|base| + 1..|s|] == Counter(n, m);
    CounterParts(n, m);
  }

  /** The same for numbers: part `n` of `m`. */
  lemma {:induction false} NumberedRoundTrip(base: string, n: nat, m: nat)
    requires Matches(base, 0, RoundOrSquare) == [] && n <= INT_MAX
    ensures var s := base + " " + Counter(Decimal(n), Decimal(m));
            FileNumber(s) == n && Key(s) == Some(Trim(base)) && NudeSubject(s) == Trim(base)
  {
    DecimalReadsBack(n);
    CounterRoundTrip(base, Decimal(n), Decimal(m));
  }

  function Square(n: string, m: string): string {
    "[" + n + "/" + m + "]"
  }

  lemma {:induction false} SquareParts(n: string, m: string)
    requires AllDigits(n) && AllDigits(m)
    ensures Split(Without(Without(Square(n, m), "("), ")"), '/') == ["[" + n, m + "]"]
    ensures IntOf("[" + n) == None
  {
    var s := Square(n, m);
    assert '(' !in s && ')' !in s;
    WithoutChar(s, '(', "");
    WithoutChar(s, ')', "");
    assert s + "" == s;
    var a, b := "[" + n, m + "]";
    SplitPlain(a, '/', "", "/" + b);
    assert a + ("/" + b) == s && "" + a == a;
    assert ("/" + b)[1..] == b;
    SplitPlain(b, '/', "", "");
    assert b + "" == b && "" + b == b;
    assert a[0] == '[' && !IsDigit(a[0]) && IntOf(a) == None;
  }

  /** What a match is made of. */
  lemma {:induction false} MatchText(s: string, i: nat, e: nat, open: char, close: char) returns (n: string, m: string)
    requires i <= |s| && MatchAt(s, i, open, close) == Some(e)
    ensures i < e <= |s| && AllDigits(n) && AllDigits(m) && s[i..e] == [open] + n + "/" + m + [close]
  {
    var j := DigitsEnd(s, i + 1);
    var k := DigitsEnd(s, j + 1);
    n, m := s[i + 1..j], s[j + 1..k];
    forall x | 0 <= x < |n| ensures IsDigit(n[x]) { assert n[x] == s[i + 1 + x]; }
    forall x | 0 <= x < |m| ensures IsDigit(m[x]) { assert m[x] == s[j + 1 + x]; }
    assert s[i..j] == [s[i]] + n && s[j..k] == [s[j]] + m && s[k..e] == [s[k]];
    assert s[i..e] == s[i..j] + s[j..k] + s[k..e];
    assert [s[i]] + n + ([s[j]] + m) + [s[k]] == [s[i]] + n + [s[j]] + m + [s[k]];
  }

  /** The number of a subject with exactly one counter, wherever it stands: the first number of a
      round one, as far as it fits 64 bits; 0 for a square one, whose bracket is left on. */
  lemma {:induction false} NumberOfCounter(s: string, i: nat, e: nat) returns (n: string, m: string)
    requires Matches(s, 0, RoundOrSquare) == [(i, e)]
    ensures i < e <= |s| && AllDigits(n) && AllDigits(m)
    ensures s[i..e] == Counter(n, m) || s[i..e] == Square(n, m)
    ensures FileNumber(s) ==
            if s[i..e] == Counter(n, m) && DigitsValue(n) <= INT_MAX then DigitsValue(n) else 0
  {
    OnlyMatch(s, 0, RoundOrSquare, (i, e));
    if CounterAt(s, i, Round).Some? {
      n, m := MatchText(s, i, e, '(', ')');
      CounterParts(n, m);
    } else {
      n, m := MatchText(s, i, e, '[', ']');
      SquareParts(n, m);
      assert Square(n, m)[0] == '[' && Counter(n, m)[0] == '(';
    }
  }

  /** A round counter with a square one behind it has a key and the number 0. */
  lemma {:induction false} MixedCountersHaveNoNumber(n: string, m: string, k: string, l: string)
    requires AllDigits(n) && AllDigits(m) && AllDigits(k) && AllDigits(l)
    ensures var s := Counter(n, m) + Square(k, l);
            Key(s) == Some(Trim(Square(k, l))) && FileNumber(s) == 0 && NudeSubject(s) == s
  {
    hide Matches, Key, FileNumber, NudeSubject, MatchAt, Counter, Square;
    var a := MixedMatches(n, m, k, l);
    var s := Counter(n, m) + Square(k, l);
    TitleIsKeyIff(s, 0, a);
    KeyIsRest(s, 0, a);
    assert s[..0] + s[a..] == Square(k, l);
  }

  lemma {:induction false} MixedMatches(n: string, m: string, k: string, l: string) returns (a: nat)
    requires AllDigits(n) && AllDigits(m) && AllDigits(k) && AllDigits(l)
    ensures var s := Counter(n, m) + Square(k, l);
            && a == |Counter(n, m)|
            && Matches(s, 0, Round) == [(0, a)] && Matches(s, 0, RoundOrSquare) == [(0, a), (a, |s|)]
  {
    hide Matches, CounterAt, Counter, Square;
    a := |Counter(n, m)|;
    var s := Counter(n, m) + Square(k, l);
    CounterInFront(n, m, Square(k, l));
    SquareMatches(Counter(n, m), k, l);
    NoRoundThrough(s, a, |s|);
    FirstMatch(s, 0, a, Round);
    FirstMatch(s, 0, a, RoundOrSquare);
    FirstMatch(s, a, |s|, RoundOrSquare);
    NoMatchAtEnd(s);
  }

  lemma {:induction false} FirstMatch(s: string, i: nat, e: nat, p: Pattern)
    requires i < |s| && CounterAt(s, i, p) == Some(e)
    ensures e <= |s| && Matches(s, i, p) == [(i, e)] + Matches(s, e, p)
  {
  }

  lemma {:induction false} NoMatchAtEnd(s: string)
    ensures Matches(s, |s|, Round) == [] && Matches(s, |s|, RoundOrSquare) == []
  {
  }

  lemma {:induction false} CounterInFront(n: string, m: string, rest: string)
    requires AllDigits(n) && AllDigits(m)
    ensures var s := Counter(n, m) + rest;
            && CounterAt(s, 0, Round) == Some(|Counter(n, m)|)
            && CounterAt(s, 0, RoundOrSquare) == Some(|Counter(n, m)|)
    ensures |Counter(n, m)| > 0
  {
    var s := Counter(n, m) + rest;
    var a, z := 1 + |n|, |Counter(n, m)| - 1;
    assert s[0] == '(' && s[a] == '/' && s[z] == ')';
    forall j | 1 <= j < a ensures IsDigit(s[j]) { assert s[j] == n[j - 1]; }
    forall j | a + 1 <= j < z ensures IsDigit(s[j]) { assert s[j] == m[j - a - 1]; }
  }

  lemma {:induction false} SquareMatches(pre: string, n: string, m: string)
    requires AllDigits(n) && AllDigits(m)
    ensures var s := pre + Square(n, m);
            CounterAt(s, |pre|, RoundOrSquare) == Some(|s|) && CounterAt(s, |pre|, Round).None?
    ensures forall k | |pre| <= k < |pre + Square(n, m)| :: (pre + Square(n, m))[k] != '('
  {
    var s := pre + Square(n, m);
    var a := |pre| + 1 + |n|;
    assert s[|pre|] == '[' && s[a] == '/' && s[|s| - 1] == ']';
    forall j | |pre| + 1 <= j < a ensures IsDigit(s[j]) { assert s[j] == n[j - |pre| - 1]; }
    forall j | a + 1 <= j < |s| - 1 ensures IsDigit(s[j]) { assert s[j] == m[j - a - 1]; }
  }

  /** The first and the second of two parts, "(1/2)[3/4]" and "(2/2)[3/4]": one key and one number,
      so sorting may leave them either way. */
  lemma {:induction false} PartsWithoutOrder()
    ensures var first, second := "(1/2)[3/4]", "(2/2)[3/4]";
            Key(first).Some? && Key(first) == Key(second) && FileNumber(first) == FileNumber(second) == 0
  {
    hide Key, FileNumber, NudeSubject, Trim;
    MixedCountersHaveNoNumber("1", "2", "3", "4");
    MixedCountersHaveNoNumber("2", "2", "3", "4");
    assert Counter("1", "2") + Square("3", "4") == "(1/2)[3/4]";
    assert Counter("2", "2") + Square("3", "4") == "(2/2)[3/4]";
  }

  /** Trimming is idempotent: a key has no blank at either end. */
  lemma {:induction false} KeyIsTrimmed(s: string)
    requires Key(s).Some?
    ensures Key(s).value != "" ==>
              !Blank(Key(s).value[0]) && !Blank(Key(s).value[|Key(s).value| - 1])
  {
    var ms := Matches(s, 0, Round);
    var (i, e) := MatchSpan(s, ms);
    var t := Without(s, s[i..e]);
    TrimRightEnd(t);
    TrimLeftEnds(TrimRight(t));
  }

  lemma {:induction false} TrimRightEnd(s: string)
    ensures TrimRight(s) != "" ==> !Blank(TrimRight(s)[|TrimRight(s)| - 1])
  {
    if s != "" && Blank(s[|s| - 1]) {
      TrimRightEnd(s[..|s| - 1]);
    }
  }

  lemma {:induction false} TrimLeftEnds(s: string)
    requires s != "" ==> !Blank(s[|s| - 1])
    ensures var t := TrimLeft(s);
            t != "" ==> !Blank(t[0]) && !Blank(t[|t| - 1])
  {
    if s != "" && Blank(s[0]) {
      TrimLeftEnds(s[1..]);
    }
  }
}
