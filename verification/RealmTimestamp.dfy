/** Dates and timestamps, in exact arithmetic. A date is seconds from 2001, a timestamp whole
    seconds and nanoseconds from 1970. */
module RealmTimestamp {
  newtype int64 = x: int | -0x8000_0000_0000_0000 <= x < 0x8000_0000_0000_0000
  newtype int32 = x: int | -0x8000_0000 <= x < 0x8000_0000

  const INT64_MAX: int := 0x7fff_ffff_ffff_ffff
  const INT64_MIN: int := -0x8000_0000_0000_0000
  const SINCE_1970: int := 978307200
  const NANOS: int := 1_000_000_000

  datatype Date = Nil | NotANumber | PlusInfinity | MinusInfinity | At(interval: real)

  datatype Timestamp = Null | Timestamp(seconds: int64, nanoseconds: int32)

  /** A conversion to an integer type drops the fraction. */
  function Truncate(x: real): int {
    if x >= 0.0 then x.Floor else -((-x).Floor)
  }

  predicate ClampedHigh(d: Date) {
    d.PlusInfinity? || (d.At? && d.interval >= (INT64_MAX - SINCE_1970) as real)
  }

  predicate ClampedLow(d: Date) {
    d.MinusInfinity? || (d.At? && d.interval - SINCE_1970 as real < INT64_MIN as real)
  }

  predicate Kept(d: Date) {
    d.At? && !ClampedHigh(d) && !ClampedLow(d)
  }

  /** Whole seconds and nanoseconds of one sign, less than a second of the latter. */
  predicate Canonical(ts: Timestamp) {
    ts.Timestamp? ==>
      && -NANOS < ts.nanoseconds as int < NANOS
      && !(ts.seconds > 0 && ts.nanoseconds < 0) && !(ts.seconds < 0 && ts.nanoseconds > 0)
  }

  /** All nanoseconds from 1970. */
  function Nanos(ts: Timestamp): int
    requires ts.Timestamp?
  {
    ts.seconds as int * NANOS + ts.nanoseconds as int
  }

  function ToDate(ts: Timestamp): Date {
    if ts.Null? then Nil
    else At((ts.seconds as int - SINCE_1970) as real + ts.nanoseconds as int as real / NANOS as real)
  }

  /** What the steps of the conversion come to: the nanoseconds from 2001, without a fraction, and
      then counted from 1970. */
  ghost predicate Converts(d: Date, ts: Timestamp) {
    && (d.Nil? <==> ts.Null?)
    && (d.NotANumber? ==> ts == Timestamp(0, 0))
    && (ClampedHigh(d) ==> ts == Timestamp(0x7fff_ffff_ffff_ffff, 999_999_999))
    && (ClampedLow(d) ==> ts == Timestamp(-0x8000_0000_0000_0000, -999_999_999))
    && (Kept(d) ==> ts.Timestamp? && Nanos(ts) == Truncate(d.interval * NANOS as real) + SINCE_1970 * NANOS)
    && Canonical(ts)
  }

  lemma {:induction false} FloorIs(x: real, n: int)
    requires n as real <= x < n as real + 1.0
    ensures x.Floor == n
  {
  }

  /** The conversion, step by step. That the casts are to 64- and 32-bit integers means that
      nothing overflows after the clamps. */
  method ForDate(d: Date) returns (ts: Timestamp)
    ensures Converts(d, ts)
  {
    match d
    case Nil => return Null;
    case NotANumber => return Timestamp(0, 0);
    case PlusInfinity => return Timestamp(0x7fff_ffff_ffff_ffff, 1_000_000_000 - 1);
    case MinusInfinity => return Timestamp(-0x8000_0000_0000_0000, -1_000_000_000 + 1);
    case At(timeInterval) =>
      if timeInterval >= (INT64_MAX - SINCE_1970) as real {
        return Timestamp(0x7fff_ffff_ffff_ffff, 1_000_000_000 - 1);
      }
      if timeInterval - SINCE_1970 as real < INT64_MIN as real {
        return Timestamp(-0x8000_0000_0000_0000, -1_000_000_000 + 1);
      }
      var seconds := Truncate(timeInterval) as int64;
      var nanoseconds := Truncate((timeInterval - seconds as int as real) * NANOS as real) as int32;
      seconds := seconds + 978307200;
      if nanoseconds < 0 && seconds > 0 {
        nanoseconds := nanoseconds + 1_000_000_000;
        seconds := seconds - 1;
      }
      ts := Timestamp(seconds, nanoseconds);
  }

  /** Converting back: for a date that is not clamped, the same instant less what is below a
      nanosecond, so the very same if and only if it is a whole number of nanoseconds. */
  lemma {:induction false} DateComesBackIff(d: Date, ts: Timestamp)
    requires Kept(d) && Converts(d, ts)
    ensures ToDate(ts).At?
    ensures var back := ToDate(ts).interval;
            && (d.interval >= 0.0 ==> 0.0 <= d.interval - back < 1.0 / NANOS as real)
            && (d.interval < 0.0 ==> 0.0 <= back - d.interval < 1.0 / NANOS as real)
            && (back == d.interval <==> (d.interval * NANOS as real).Floor as real == d.interval * NANOS as real)
  {
    var x := d.interval * NANOS as real;
    var back := ToDate(ts).interval;
    assert back * NANOS as real == Truncate(x) as real;
    if x == x.Floor as real { FloorIs(-x, -x.Floor); }
    assert back == d.interval <==> back * NANOS as real == x;
  }

  const HIGHEST := Timestamp(0x7fff_ffff_ffff_ffff, 999_999_999)
  const LOWEST := Timestamp(-0x8000_0000_0000_0000, -999_999_999)

  /** Which timestamps have dates that are not clamped: all below the last second, and from 62
      years above the first. At the low end the constant is subtracted where it is added
      otherwise, so timestamps of those 62 years are clamped although they could be held. */
  lemma {:induction false} DateIsKeptIff(ts: Timestamp)
    requires ts.Timestamp?
    ensures Kept(ToDate(ts)) <==> (INT64_MIN + 2 * SINCE_1970) * NANOS <= Nanos(ts) < INT64_MAX * NANOS
  {
    var t := ToDate(ts).interval;
    assert t * NANOS as real == (Nanos(ts) - SINCE_1970 * NANOS) as real;
    assert t < (INT64_MAX - SINCE_1970) as real <==> t * NANOS as real < ((INT64_MAX - SINCE_1970) * NANOS) as real;
    assert t >= (INT64_MIN + SINCE_1970) as real <==> t * NANOS as real >= ((INT64_MIN + SINCE_1970) * NANOS) as real;
  }

  /** The other way round, for every timestamp: it comes back if and only if its date is not
      clamped, or it is one of the two that clamped dates get. */
  lemma {:induction false} TimestampComesBackIff(ts: Timestamp, back: Timestamp)
    requires ts.Timestamp? && Canonical(ts) && Converts(ToDate(ts), back)
    ensures back == ts <==> Kept(ToDate(ts)) || ts == HIGHEST || ts == LOWEST
  {
    DateIsKeptIff(ts);
    if Kept(ToDate(ts)) {
      var x := ToDate(ts).interval * NANOS as real;
      var n := Nanos(ts) - SINCE_1970 * NANOS;
      assert x == n as real;
      FloorIs(x, n);
      FloorIs(-x, -n);
      assert Truncate(x) == n;
      SameNanos(ts, back);
    }
  }

  lemma {:induction false} SameNanos(a: Timestamp, b: Timestamp)
    requires a.Timestamp? && b.Timestamp? && Canonical(a) && Canonical(b) && Nanos(a) == Nanos(b)
    ensures a == b
  {
  }
}
