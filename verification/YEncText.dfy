/** The text operations of the codec on byte sequences: splitting a file into lines, the two
    shapes of leftmost regular expression match, numerals, and the line-end conversion. */
module YEncText {
  import opened Wrappers
  import opened YEncCodec

  // ----- lines, as `each_line` yields them: every line keeps its LF -----

  function FirstLine(f: Bytes): (n: nat)
    requires f != []
    ensures 1 <= n <= |f|
  {
    if f[0] == LF || |f| == 1 then 1 else 1 + FirstLine(f[1..])
  }

  function Lines(f: Bytes): seq<Bytes> {
    if f == [] then [] else
    var n := FirstLine(f);
    [f[..n]] + Lines(f[n..])
  }

  predicate Terminated(f: Bytes) {
    f == [] || f[|f| - 1] == LF
  }

  lemma {:induction false} FirstLineEnds(l: Bytes, rest: Bytes)
    requires LF !in l
    ensures FirstLine(l + [LF] + rest) == |l| + 1
  {
    if l != [] {
      assert (l + [LF] + rest)[1..] == l[1..] + [LF] + rest;
      FirstLineEnds(l[1..], rest);
    }
  }

  lemma {:induction false} LinesCons(l: Bytes, rest: Bytes)
    requires LF !in l
    ensures Lines(l + [LF] + rest) == [l + [LF]] + Lines(rest)
  {
    var f := l + [LF] + rest;
    FirstLineEnds(l, rest);
    assert f[..|l| + 1] == l + [LF] && f[|l| + 1..] == rest;
  }

  /** Every line but an unterminated last one is some LF-free text followed by LF. */
  lemma {:induction false} SplitFirstLine(f: Bytes) returns (l: Bytes, rest: Bytes)
    requires LF in f
    ensures LF !in l && f == l + [LF] + rest
  {
    if f[0] == LF {
      l, rest := [], f[1..];
    } else {
      assert f == [f[0]] + f[1..];
      var l', rest' := SplitFirstLine(f[1..]);
      l, rest := [f[0]] + l', rest';
    }
  }

  lemma {:induction false} LinesUnterminated(f: Bytes)
    requires f != [] && LF !in f
    ensures Lines(f) == [f]
  {
    if |f| > 1 {
      LinesUnterminated(f[1..]);
      assert Lines(f[1..])[0] == f[1..];
      assert FirstLine(f[1..]) == |f| - 1;
    }
    assert f[..|f|] == f;
  }

  lemma {:induction false} NoLines()
    ensures Lines([]) == []
  {
  }

  lemma {:induction false} LinesConcat(f: Bytes, g: Bytes)
    requires Terminated(f)
    ensures Lines(f + g) == Lines(f) + Lines(g)
    decreases |f|
  {
    hide Lines;
    if f == [] {
      NoLines();
      assert f + g == g;
    } else {
      var l, rest := SplitFirstLine(f);
      assert Terminated(rest) by {
        if rest != [] { assert rest[|rest| - 1] == f[|f| - 1]; }
      }
      LinesCons(l, rest);
      assert f + g == l + [LF] + (rest + g);
      LinesCons(l, rest + g);
      LinesConcat(rest, g);
    }
  }

  // ----- leftmost matches -----

  /** The text after the leftmost occurrence of `key`. */
  function After(s: Bytes, key: Bytes): Option<Bytes> {
    if key <= s then Some(s[|key|..])
    else if s == [] then None
    else After(s[1..], key)
  }

  predicate Contains(s: Bytes, key: Bytes) {
    After(s, key).Some?
  }

  function UpToLF(t: Bytes): Bytes {
    if t == [] || t[0] == LF then [] else [t[0]] + UpToLF(t[1..])
  }

  predicate Space(b: byte) {
    9 <= b <= 13 || b == 32
  }

  function Word(t: Bytes): Bytes {
    if t == [] || Space(t[0]) then [] else [t[0]] + Word(t[1..])
  }

  /** `line[/key(.*)/, 1]` */
  function MatchRest(s: Bytes, key: Bytes): Option<Bytes> {
    match After(s, key)
    case None => None
    case Some(t) => Some(UpToLF(t))
  }

  /** `line[/key([^\s]+)/, 1]`: an occurrence followed by white space does not match. */
  function MatchWord(s: Bytes, key: Bytes): Option<Bytes> {
    if key <= s && Word(s[|key|..]) != [] then Some(Word(s[|key|..]))
    else if s == [] then None
    else MatchWord(s[1..], key)
  }

  /** No occurrence of `key` begins inside `pre`, seen from its first two bytes. */
  ghost predicate NoStart(pre: Bytes, key: Bytes)
    requires |key| >= 2
  {
    forall i | 0 <= i < |pre| :: pre[i] != key[0] || (i + 1 < |pre| && pre[i+1] != key[1])
  }

  lemma {:induction false} NoStartConcat(a: Bytes, b: Bytes, key: Bytes)
    requires |key| >= 2 && NoStart(a, key) && NoStart(b, key)
    ensures NoStart(a + b, key)
  {
    forall i | 0 <= i < |a + b|
      ensures (a + b)[i] != key[0] || (i + 1 < |a + b| && (a + b)[i+1] != key[1])
    {
      if i < |a| {
        assert (a + b)[i] == a[i];
        if i + 1 < |a| { assert (a + b)[i+1] == a[i+1]; }
      } else {
        assert (a + b)[i] == b[i - |a|];
        if i + 1 < |a + b| { assert (a + b)[i+1] == b[i + 1 - |a|]; }
      }
    }
  }

  lemma {:induction false} SkipNoStart(pre: Bytes, s: Bytes, key: Bytes)
    requires |key| >= 2 && NoStart(pre, key)
    ensures After(pre + s, key) == After(s, key)
    ensures MatchWord(pre + s, key) == MatchWord(s, key)
  {
    if pre == [] {
      assert pre + s == s;
    } else {
      var t := pre + s;
      assert t[0] == pre[0] && (|pre| > 1 ==> t[1] == pre[1]);
      assert !(key <= t);
      assert t[1..] == pre[1..] + s;
      forall i | 0 <= i < |pre[1..]|
        ensures pre[1..][i] != key[0] || (i + 1 < |pre[1..]| && pre[1..][i+1] != key[1])
      {
        assert pre[1..][i] == pre[i+1];
      }
      SkipNoStart(pre[1..], s, key);
    }
  }

  lemma {:induction false} UpToLFEnds(l: Bytes, rest: Bytes)
    requires LF !in l
    ensures UpToLF(l + [LF] + rest) == l
  {
    var t := l + [LF] + rest;
    if l != [] {
      assert t[1..] == l[1..] + [LF] + rest;
      UpToLFEnds(l[1..], rest);
    }
  }

  lemma {:induction false} WordEnds(w: Bytes, rest: Bytes)
    requires forall b | b in w :: !Space(b)
    requires rest != [] && Space(rest[0])
    ensures Word(w + rest) == w
  {
    var t := w + rest;
    if w == [] {
      assert t == rest;
    } else {
      assert w[0] in w;
      assert t[1..] == w[1..] + rest;
      WordEnds(w[1..], rest);
    }
  }

  lemma {:induction false} ContainsConcat(a: Bytes, b: Bytes, key: Bytes)
    requires Contains(b, key)
    ensures Contains(a + b, key)
  {
    if a == [] {
      assert a + b == b;
    } else {
      assert (a + b)[1..] == a[1..] + b;
      ContainsConcat(a[1..], b, key);
    }
  }

  lemma {:induction false} ContainsLeft(a: Bytes, b: Bytes, key: Bytes)
    requires Contains(a, key)
    ensures Contains(a + b, key)
  {
    if key <= a {
      assert key <= a + b;
    } else {
      assert (a + b)[1..] == a[1..] + b;
      ContainsLeft(a[1..], b, key);
    }
  }

  // ----- numerals -----

  function Digit(d: nat): byte
    requires d < 16
  {
    if d < 10 then 48 + d else 87 + d
  }

  function DigitValue(b: byte): nat {
    if 48 <= b <= 57 then b - 48 else if 97 <= b <= 102 then b - 87 else 0
  }

  /** `to_s(base)`: lower-case digits, no leading zero. */
  function Numeral(n: nat, base: nat): Bytes
    requires base == 10 || base == 16
  {
    if n < base then [Digit(n)] else Numeral(n / base, base) + [Digit(n % base)]
  }

  function NumeralValue(s: Bytes, base: nat): nat
    requires base == 10 || base == 16
  {
    if s == [] then 0 else NumeralValue(s[..|s| - 1], base) * base + DigitValue(s[|s| - 1])
  }

  /** A numeral reads back as its number, so distinct numbers have distinct numerals. */
  lemma {:induction false} NumeralReadsBack(n: nat, base: nat)
    requires base == 10 || base == 16
    ensures NumeralValue(Numeral(n, base), base) == n
  {
    if n < base {
      assert [Digit(n)][..0] == [];
    } else {
      var s := Numeral(n / base, base);
      assert (s + [Digit(n % base)])[..|s|] == s;
      NumeralReadsBack(n / base, base);
    }
  }

  predicate LowerDigit(b: byte) {
    48 <= b <= 57 || 97 <= b <= 102
  }

  lemma {:induction false} NumeralDigits(n: nat, base: nat)
    requires base == 10 || base == 16
    ensures Numeral(n, base) != []
    ensures forall b | b in Numeral(n, base) :: LowerDigit(b) && (base == 10 ==> b <= 57)
  {
    if n >= base {
      NumeralDigits(n / base, base);
    }
  }

  /** The leading digit is a zero only in the numeral of zero. */
  lemma {:induction false} NumeralNoLeadingZero(n: nat, base: nat)
    requires base == 10 || base == 16
    ensures Numeral(n, base)[0] == 48 <==> n == 0
  {
    if n >= base {
      NumeralNoLeadingZero(n / base, base);
      NumeralDigits(n / base, base);
    }
  }

  /** A text of digits is the numeral of its value just when it has no leading zero. */
  lemma {:induction false} ValueWritesBack(s: Bytes)
    requires s != [] && forall b | b in s :: LowerDigit(b)
    ensures Numeral(NumeralValue(s, 16), 16) == s <==> |s| == 1 || s[0] != 48
    decreases |s|
  {
    var n := |s| - 1;
    var d := DigitValue(s[n]);
    assert s[n] in s && Digit(d) == s[n];
    if n == 0 {
      assert s[..0] == [] && s == [s[0]];
    } else {
      var lead := s[..n];
      assert s == lead + [s[n]];
      ValueWritesBack(lead);
      var v := NumeralValue(lead, 16);
      assert NumeralValue(s, 16) == v * 16 + d && (v * 16 + d) / 16 == v && (v * 16 + d) % 16 == d;
      NumeralNoLeadingZero(NumeralValue(s, 16), 16);
      assert v > 0 ==> Numeral(NumeralValue(s, 16), 16) == Numeral(v, 16) + [s[n]];
      NumeralNoLeadingZero(v, 16);
      assert Numeral(0, 16) == [48];
      assert (Numeral(v, 16) + [s[n]])[..|Numeral(v, 16)|] == Numeral(v, 16);
      assert Numeral(v, 16) + [s[n]] == s ==> Numeral(v, 16) == lead;
    }
  }

  function Upcase(s: Bytes): Bytes {
    seq(|s|, i requires 0 <= i < |s| => if 97 <= s[i] <= 122 then (s[i] - 32) as byte else s[i])
  }

  function Downcase(s: Bytes): Bytes {
    seq(|s|, i requires 0 <= i < |s| => if 65 <= s[i] <= 90 then (s[i] + 32) as byte else s[i])
  }

  predicate Blank(b: byte) {
    b == 0 || Space(b)
  }

  function StripRight(s: Bytes): Bytes {
    if s != [] && Blank(s[|s| - 1]) then StripRight(s[..|s| - 1]) else s
  }

  function StripLeft(s: Bytes): Bytes {
    if s != [] && Blank(s[0]) then StripLeft(s[1..]) else s
  }

  function Strip(s: Bytes): Bytes {
    StripLeft(StripRight(s))
  }

  lemma {:induction false} DowncaseUpcase(s: Bytes)
    requires forall b | b in s :: LowerDigit(b)
    ensures Downcase(Upcase(s)) == s
  {
    forall i | 0 <= i < |s| ensures Downcase(Upcase(s))[i] == s[i] {
      assert s[i] in s;
    }
  }

  // ----- LF becomes CR LF -----

  function Crlf(f: Bytes): Bytes {
    if f == [] then [] else (if f[0] == LF then [CR, LF] else [f[0]]) + Crlf(f[1..])
  }

  lemma {:induction false} CrlfConcat(a: Bytes, b: Bytes)
    ensures Crlf(a + b) == Crlf(a) + Crlf(b)
  {
    if a == [] {
      assert a + b == b;
    } else {
      assert (a + b)[1..] == a[1..] + b;
      CrlfConcat(a[1..], b);
    }
  }

  lemma {:induction false} CrlfPlain(a: Bytes)
    requires LF !in a
    ensures Crlf(a) == a
  {
    if a != [] {
      CrlfPlain(a[1..]);
    }
  }

  function CrlfLines(ls: seq<Bytes>): seq<Bytes> {
    if ls == [] then [] else [Crlf(ls[0])] + CrlfLines(ls[1..])
  }

  lemma {:induction false} CrlfOfLine(l: Bytes, rest: Bytes)
    requires LF !in l
    ensures Crlf(l + [LF]) == (l + [CR]) + [LF]
    ensures Crlf(l + [LF] + rest) == (l + [CR]) + [LF] + Crlf(rest)
  {
    CrlfConcat(l, [LF]);
    CrlfPlain(l);
    assert Crlf([LF]) == [CR, LF];
    CrlfConcat(l + [LF], rest);
  }

  /** Converting a file converts its lines. */
  lemma {:induction false} LinesOfCrlf(f: Bytes)
    ensures Lines(Crlf(f)) == CrlfLines(Lines(f))
    decreases |f|
  {
    if f == [] {
    } else if LF in f {
      var l, rest := SplitFirstLine(f);
      LinesOfCrlf(rest);
      LinesCons(l, rest);
      LinesCons(l + [CR], Crlf(rest));
      CrlfOfLine(l, rest);
      assert CrlfLines(Lines(f)) == [Crlf(l + [LF])] + CrlfLines(Lines(rest));
    } else {
      CrlfPlain(f);
      LinesUnterminated(f);
      assert CrlfLines([f]) == [Crlf(f)] + CrlfLines([]);
    }
  }

  /** Neither CR nor LF occurs in any of the keys the decoder looks for. */
  predicate Plain(key: Bytes) {
    key != [] && LF !in key && CR !in key
  }

  lemma {:induction false} PrefixOfCrlf(key: Bytes, s: Bytes)
    requires LF !in key && CR !in key
    ensures key <= Crlf(s) <==> key <= s
    ensures key <= s ==> Crlf(s)[|key|..] == Crlf(s[|key|..])
  {
    if key == [] || s == [] {
    } else if s[0] == LF {
      assert key[0] in key;
    } else {
      assert key == [key[0]] + key[1..];
      assert s == [s[0]] + s[1..];
      assert Crlf(s) == [s[0]] + Crlf(s[1..]);
      PrefixOfCrlf(key[1..], s[1..]);
      assert key <= s <==> key[0] == s[0] && key[1..] <= s[1..];
      assert key <= Crlf(s) <==> key[0] == s[0] && key[1..] <= Crlf(s)[1..];
      if key <= s {
        assert s[|key|..] == s[1..][|key[1..]|..];
        assert Crlf(s)[|key|..] == Crlf(s)[1..][|key[1..]|..];
      }
    }
  }

  lemma {:induction false} WordOfCrlf(t: Bytes)
    ensures Word(Crlf(t)) == Word(t)
  {
    if t != [] && !Space(t[0]) {
      assert Crlf(t)[1..] == Crlf(t[1..]);
      WordOfCrlf(t[1..]);
    }
  }

  lemma {:induction false} UpToLFOfCrlf(t: Bytes)
    ensures UpToLF(Crlf(t)) == UpToLF(t) || UpToLF(Crlf(t)) == UpToLF(t) + [CR]
  {
    if t == [] {
    } else if t[0] == LF {
      assert Crlf(t)[0] == CR && Crlf(t)[1] == LF;
      assert UpToLF(Crlf(t)) == [CR] + UpToLF(Crlf(t)[1..]);
    } else {
      assert Crlf(t)[1..] == Crlf(t[1..]);
      UpToLFOfCrlf(t[1..]);
    }
  }

  lemma {:induction false} SearchCrlf(s: Bytes, key: Bytes)
    requires Plain(key)
    ensures After(Crlf(s), key) == match After(s, key) case None => None case Some(t) => Some(Crlf(t))
    ensures MatchWord(Crlf(s), key) == MatchWord(s, key)
  {
    PrefixOfCrlf(key, s);
    if key <= s {
      WordOfCrlf(s[|key|..]);
    }
    if s == [] {
    } else if key <= s && Word(s[|key|..]) != [] {
    } else {
      SearchCrlf(s[1..], key);
      var c := Crlf(s);
      if s[0] == LF {
        assert c == [CR, LF] + Crlf(s[1..]);
        assert c[1..][1..] == Crlf(s[1..]);
        assert key[0] in key;
        assert !(key <= c[1..]) && !(key <= c);
      } else {
        assert c[1..] == Crlf(s[1..]);
      }
    }
  }
}
