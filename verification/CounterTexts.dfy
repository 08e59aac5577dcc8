/** Counters, numbers and blanks told by their texts: which places of a subject are counters, which
    texts are numbers, and what is left when a counter is taken out. */
module CounterTexts {
  import opened Wrappers
  import opened Counters

  // ----- counters -----

  /** A text of the kind that the pattern accepts, with the numbers `n` and `m`. */
  predicate IsCounter(text: string, p: Pattern, n: string, m: string) {
    AllDigits(n) && AllDigits(m) &&
    (text == "(" + n + "/" + m + ")" || (p == RoundOrSquare && text == "[" + n + "/" + m + "]"))
  }

  /** A counter matches wherever its text stands, and nothing else does. */
  lemma {:induction false} CounterAtIff(s: string, i: nat, e: nat, p: Pattern)
    requires i < |s|
    ensures CounterAt(s, i, p) == Some(e) <==> i <= e <= |s| && exists n, m :: IsCounter(s[i..e], p, n, m)
  {
    hide MatchAt, DigitsEnd;
    if CounterAt(s, i, p) == Some(e) {
      if MatchAt(s, i, '(', ')').Some? {
        var n, m := MatchText(s, i, e, '(', ')');
        assert IsCounter(s[i..e], p, n, m);
      } else {
        var n, m := MatchText(s, i, e, '[', ']');
        assert IsCounter(s[i..e], p, n, m);
      }
    }
    if i <= e <= |s| && exists n, m :: IsCounter(s[i..e], p, n, m) {
      var n, m :| IsCounter(s[i..e], p, n, m);
      WrittenMatches(s, i, e, p, n, m);
    }
  }

  lemma {:induction false} WrittenMatches(s: string, i: nat, e: nat, p: Pattern, n: string, m: string)
    requires i <= e <= |s| && IsCounter(s[i..e], p, n, m)
    ensures CounterAt(s, i, p) == Some(e)
  {
    hide MatchAt, DigitsEnd;
    var text := s[i..e];
    assert text[0..|text|] == text && s[i..i + |text|] == text;
    if text == Counter(n, m) {
      CounterInFront(n, m, "");
      assert Counter(n, m) + "" == text;
      MatchMoves(text, 0, |text|, s, i, '(', ')');
    } else {
      SquareMatches("", n, m);
      assert "" + Square(n, m) == text;
      MatchMoves(text, 0, |text|, s, i, '[', ']');
      assert text[0] == '[' && s[i] == text[0];
      NoRoundHere(s, i);
    }
  }

  lemma {:induction false} NoRoundHere(s: string, i: nat)
    requires i < |s| && s[i] != '('
    ensures MatchAt(s, i, '(', ')').None?
  {
  }

  /** Inside a counter none begins. */
  lemma {:induction false} NoneInside(s: string, i: nat, e: nat, p: Pattern, j: nat)
    requires i < j < e <= |s| && CounterAt(s, i, p) == Some(e)
    ensures CounterAt(s, j, p).None?
  {
    hide DigitsEnd;
    assert s[j] != '(' && s[j] != '[';
  }

  /** The matches are all the counters of the text, in order, none over another. */
  lemma {:induction false} MatchesAreCounters(s: string, from: nat, p: Pattern)
    requires from <= |s|
    ensures forall i: nat, e: nat :: (i, e) in Matches(s, from, p) <==> from <= i < |s| && CounterAt(s, i, p) == Some(e)
    ensures forall a, b | 0 <= a < b < |Matches(s, from, p)| :: Matches(s, from, p)[a].1 <= Matches(s, from, p)[b].0
    decreases |s| - from
  {
    if from < |s| {
      var e := CounterAt(s, from, p);
      var next := if e.Some? then e.value else from + 1;
      MatchesAreCounters(s, next, p);
      MatchesInRange(s, next, p);
      if e.Some? {
        forall j | from < j < e.value ensures CounterAt(s, j, p).None? {
          NoneInside(s, from, e.value, p, j);
        }
      }
    }
  }

  /** So a place is a match if and only if the text there is a counter. */
  lemma {:induction false} MatchIff(s: string, p: Pattern, i: nat, e: nat)
    ensures (i, e) in Matches(s, 0, p) <==> i < e <= |s| && exists n, m :: IsCounter(s[i..e], p, n, m)
  {
    hide Matches, CounterAt;
    MatchesAreCounters(s, 0, p);
    if i < |s| {
      CounterAtIff(s, i, e, p);
    }
  }

  // ----- what is left without it -----

  lemma {:induction false} TrimsRight(s: string) returns (j: nat)
    ensures j <= |s| && TrimRight(s) == s[..j] && (j > 0 ==> !Blank(s[j - 1]))
    ensures forall k | j <= k < |s| :: Blank(s[k])
  {
    if s != "" && Blank(s[|s| - 1]) {
      j := TrimsRight(s[..|s| - 1]);
    } else {
      j := |s|;
    }
  }

  lemma {:induction false} TrimsLeft(s: string) returns (i: nat)
    ensures i <= |s| && TrimLeft(s) == s[i..] && (i < |s| ==> !Blank(s[i]))
    ensures forall k | 0 <= k < i :: Blank(s[k])
  {
    if s != "" && Blank(s[0]) {
      i := TrimsLeft(s[1..]);
      assert s[1..][i..] == s[i + 1..];
      forall k | 0 <= k < i + 1 ensures Blank(s[k]) {
        if k > 0 { assert s[k] == s[1..][k - 1]; }
      }
      i := i + 1;
    } else {
      i := 0;
    }
  }

  /** Trimming takes the blanks off both ends, and nothing else. */
  lemma {:induction false} TrimTakesBlanks(s: string) returns (i: nat, j: nat)
    ensures i <= j <= |s| && Trim(s) == s[i..j]
    ensures forall k | 0 <= k < i || j <= k < |s| :: Blank(s[k])
    ensures i < j ==> !Blank(s[i]) && !Blank(s[j - 1])
  {
    j := TrimsRight(s);
    i := TrimsLeft(s[..j]);
    hide TrimLeft, TrimRight;
    forall k | 0 <= k < i ensures Blank(s[k]) { assert s[..j][k] == s[k]; }
  }

  /** The text of a counter occurs only where there is a match. */
  lemma {:induction false} OccursOnlyThere(s: string, i: nat, e: nat, j: nat)
    requires i <= e <= |s| && j <= |s| && CounterAt(s, i, RoundOrSquare) == Some(e)
    requires CounterAt(s, j, RoundOrSquare).None?
    ensures !(s[i..e] <= s[j..])
  {
    hide MatchAt;
    if s[i..e] <= s[j..] {
      assert s[j..][..e - i] == s[j..j + (e - i)];
      if MatchAt(s, i, '(', ')').Some? {
        MatchMoves(s, i, e, s, j, '(', ')');
      } else {
        MatchMoves(s, i, e, s, j, '[', ']');
      }
    }
  }

  /** The title shown: with exactly one counter, round or square, what stands before and after it,
      trimmed; with none or several the whole subject, and then the number is 0. */
  lemma {:induction false} TitleIsRest(s: string)
    ensures var ms := Matches(s, 0, RoundOrSquare);
            && (|ms| == 1 ==>
                  ms[0].0 < ms[0].1 <= |s| && NudeSubject(s) == Trim(s[..ms[0].0] + s[ms[0].1..]))
            && (|ms| != 1 ==> NudeSubject(s) == s && FileNumber(s) == 0)
  {
    var ms := Matches(s, 0, RoundOrSquare);
    if |ms| == 1 {
      var (i, e) := ms[0];
      assert ms == [(i, e)];
      OnlyMatch(s, 0, RoundOrSquare, (i, e));
      NoMatchAfter(s, e, RoundOrSquare);
      forall j | 0 <= j < i ensures !(s[i..e] <= s[j..]) {
        OccursOnlyThere(s, i, e, j);
      }
      forall j | e <= j < |s| ensures !(s[i..e] <= s[j..]) {
        OccursOnlyThere(s, i, e, j);
      }
      hide Matches, CounterAt, Without, Trim;
      CutOnce(s, i, e);
    }
  }

  /** There is a key if and only if there is exactly one round counter. */
  lemma {:induction false} KeyIff(s: string)
    ensures Key(s).Some? <==> |Matches(s, 0, Round)| == 1
    ensures Key(s).Some? ==>
              var (i, e) := Matches(s, 0, Round)[0];
              i < e <= |s| && Key(s) == Some(Trim(s[..i] + s[e..]))
  {
    var ms := Matches(s, 0, Round);
    if |ms| == 1 {
      assert ms == [(ms[0].0, ms[0].1)];
      KeyIsRest(s, ms[0].0, ms[0].1);
    }
  }

  // ----- numbers -----

  function Zeros(k: nat): string {
    seq(k, _ => '0')
  }

  lemma {:induction false} ValueSnoc(d: string, c: char)
    requires IsDigit(c)
    ensures DigitsValue(d + [c]) == 10 * DigitsValue(d) + (c as int - '0' as int)
  {
    assert (d + [c])[..|d|] == d;
  }

  lemma {:induction false} LeadingZeros(k: nat, d: string)
    requires forall i | 0 <= i < |d| :: IsDigit(d[i])
    ensures DigitsValue(Zeros(k) + d) == DigitsValue(d)
    decreases k + |d|
  {
    if d == "" {
      assert Zeros(k) + d == Zeros(k);
      if k > 0 {
        LeadingZeros(k - 1, d);
        assert Zeros(k) == Zeros(k - 1) + ['0'] && Zeros(k - 1) + d == Zeros(k - 1);
        ValueSnoc(Zeros(k - 1), '0');
      }
    } else {
      var n := |d| - 1;
      LeadingZeros(k, d[..n]);
      assert Zeros(k) + d == (Zeros(k) + d[..n]) + [d[n]];
      assert d == d[..n] + [d[n]];
      ValueSnoc(Zeros(k) + d[..n], d[n]);
      ValueSnoc(d[..n], d[n]);
    }
  }

  lemma {:induction false} Signed(d: string, n: int)
    requires AllDigits(d) && DigitsValue(d) == n
    ensures IntOf(d) == IntOf("+" + d) == (if n <= 0x7FFF_FFFF_FFFF_FFFF then Some(n) else None)
    ensures IntOf("-" + d) == (if n <= 0x8000_0000_0000_0000 then Some(-n) else None)
  {
    assert ("+" + d)[1..] == d && ("-" + d)[1..] == d;
    hide DigitsValue;
    assert IsDigit(d[0]);
  }

  /** A number that is written with or without a sign and leading zeros is read as itself, exactly
      when it fits 64 bits. */
  lemma {:induction false} WrittenNumber(k: nat, n: nat)
    ensures var d := Zeros(k) + Decimal(n);
            && IntOf(d) == IntOf("+" + d) == (if n <= 0x7FFF_FFFF_FFFF_FFFF then Some(n as int) else None)
            && IntOf("-" + d) == (if n <= 0x8000_0000_0000_0000 then Some(-(n as int)) else None)
  {
    var d := Zeros(k) + Decimal(n);
    assert forall i | 0 <= i < |d| :: IsDigit(d[i]);
    LeadingZeros(k, Decimal(n));
    DecimalReadsBack(n);
    hide DigitsValue, Decimal, Zeros;
    Signed(d, n);
  }

  /** Digits are the decimal text of their value, behind zeros. */
  lemma {:induction false} DigitsAreDecimal(d: string) returns (k: nat)
    requires AllDigits(d)
    ensures d == Zeros(k) + Decimal(DigitsValue(d))
  {
    var n := |d| - 1;
    assert d == d[..n] + [d[n]];
    ValueSnoc(d[..n], d[n]);
    if n == 0 {
      k := 0;
      assert d[..n] == "" && Zeros(0) == "";
    } else {
      var j := DigitsAreDecimal(d[..n]);
      var v := DigitsValue(d[..n]);
      if v == 0 {
        k := j + 1;
        assert Decimal(0) == "0" && Zeros(j + 1) == Zeros(j) + "0";
      } else {
        k := j;
        var w := DigitsValue(d);
        assert w / 10 == v && w % 10 == d[n] as int - '0' as int;
        assert Decimal(w) == Decimal(v) + [d[n]];
      }
    }
  }

  predicate NumberText(s: string, sign: string, k: nat, n: nat) {
    (sign == "" || sign == "+" || sign == "-") && s == sign + (Zeros(k) + Decimal(n))
  }

  /** No other text is a number. */
  lemma {:induction false} OnlyWrittenNumbers(s: string)
    requires IntOf(s).Some?
    ensures exists sign, k, n :: NumberText(s, sign, k, n)
  {
    var sign, digits := SignOf(s);
    var k := DigitsAreDecimal(digits);
    hide IntOf, Decimal, Zeros, DigitsValue;
    assert NumberText(s, sign, k, DigitsValue(digits));
  }

  lemma {:induction false} SignOf(s: string) returns (sign: string, digits: string)
    requires IntOf(s).Some?
    ensures (sign == "" || sign == "+" || sign == "-") && s == sign + digits && AllDigits(digits)
  {
    hide DigitsValue;
    if s[0] == '-' || s[0] == '+' {
      sign, digits := [s[0]], s[1..];
    } else {
      sign, digits := "", s;
    }
  }
}
