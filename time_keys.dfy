/**
 * Clock instants and the time-bucket keys built from them.
 *
 * An instant is a whole number of seconds since 0001-01-01T00:00, the first
 * instant of Python's proleptic Gregorian calendar (ordinal 1, a Monday), so
 * the day index of an instant is its ordinal minus one and its weekday
 * (Monday = 0) is the day index modulo 7.
 *
 * The bot formats bucket keys with `strftime('%Y-%m-%d')`,
 * `'%Y-%m-%d-%H'` and `'%Y-%m-%d-%H-%M'`. Here the date part is the day
 * index written with seven zero-padded digits, followed, as in the source,
 * by `-HH` and `-MM`. Like the zero-padded calendar date, it is a
 * fixed-width, injective and order-preserving rendering of the day, which is
 * what the bot relies on when it compares keys as strings.
 */
module TimeKeys {
  import opened Text

  const MinuteSeconds: int := 60
  const HourSeconds: int := 3600
  const DaySeconds: int := 86400

  /** `date.max.toordinal()`: the number of days a Python datetime spans. */
  const DaySpan: int := 3652059

  /** Instants a Python datetime can represent; arithmetic leaving this range
      raises `OverflowError`. */
  predicate InRange(t: int) {
    0 <= t < DaySpan * DaySeconds
  }

  function DayIndex(t: int): int {
    t / DaySeconds
  }

  function HourIndex(t: int): int {
    t / HourSeconds
  }

  /** `datetime.weekday()`: Monday is 0, Sunday is 6. */
  function Weekday(t: int): (w: int)
    ensures 0 <= w < 7
  {
    DayIndex(t) % 7
  }

  function Pow10(w: nat): (p: nat)
    ensures p >= 1
  {
    if w == 0 then 1 else 10 * Pow10(w - 1)
  }

  /** `n` written with exactly `w` decimal digits, zero-padded on the left. */
  function Pad(n: nat, w: nat): (r: string)
    ensures |r| == w
  {
    if w == 0 then [] else Pad(n / 10, w - 1) + [Digit(n % 10)]
  }

  /** The date part of every key: `'%Y-%m-%d'`. */
  function DayKey(t: int): (k: string)
    requires InRange(t)
    ensures |k| == 7
  {
    Pad(DayIndex(t), 7)
  }

  /** `'%Y-%m-%d-%H'`. */
  function HourKey(t: int): (k: string)
    requires InRange(t)
    ensures |k| == 10
  {
    DayKey(t) + "-" + Pad(t % DaySeconds / HourSeconds, 2)
  }

  /** `'%Y-%m-%d-%H-%M'`. */
  function MinuteKey(t: int): (k: string)
    requires InRange(t)
    ensures |k| == 13
  {
    HourKey(t) + "-" + Pad(t % HourSeconds / MinuteSeconds, 2)
  }

  lemma StrLessSingle(c: char, d: char)
    ensures StrLess([c], [d]) <==> c < d
  {
    if c == d {
      assert [c][1..] == [];
    }
  }

  /** Zero-padded numbers of one width compare as strings exactly as they
      compare as numbers, and are equal only for equal numbers. */
  lemma {:induction false} PadOrder(a: nat, b: nat, w: nat)
    requires a < Pow10(w) && b < Pow10(w)
    ensures StrLess(Pad(a, w), Pad(b, w)) <==> a < b
    ensures Pad(a, w) == Pad(b, w) <==> a == b
  {
    if w == 0 {
      StrLessIrreflexive([]);
    } else {
      PadOrder(a / 10, b / 10, w - 1);
      var x, y := Pad(a / 10, w - 1), Pad(b / 10, w - 1);
      var c, d := Digit(a % 10), Digit(b % 10);
      StrLessConcat(x, [c], y, [d]);
      StrLessSingle(c, d);
      StrLessIrreflexive(x);
      if Pad(a, w) == Pad(b, w) {
        assert x == Pad(a, w)[..w - 1] && y == Pad(b, w)[..w - 1];
        assert c == Pad(a, w)[w - 1] && d == Pad(b, w)[w - 1];
      }
    }
  }

  lemma DivSplit(t: int, q: int, r: int, d: int)
    requires d == HourSeconds || d == DaySeconds
    requires 0 <= r < d && t == d * q + r
    ensures t / d == q && t % d == r
  {
    if d == HourSeconds {
      assert t == 3600 * q + r;
    } else {
      assert t == 86400 * q + r;
    }
  }

  /** The hour index is 24 times the day index plus the hour of the day. */
  lemma HourOfDay(t: int)
    requires t >= 0
    ensures HourIndex(t) == 24 * DayIndex(t) + t % DaySeconds / HourSeconds
    ensures 0 <= t % DaySeconds / HourSeconds < 24
  {
    var q, r := t / DaySeconds, t % DaySeconds;
    var h, s := r / HourSeconds, r % HourSeconds;
    assert r == HourSeconds * h + s;
    assert t == HourSeconds * (24 * q + h) + s;
    DivSplit(t, 24 * q + h, s, HourSeconds);
  }

  /** Day keys order and identify instants by their day. */
  lemma DayKeyOrder(a: int, b: int)
    requires InRange(a) && InRange(b)
    ensures StrLess(DayKey(a), DayKey(b)) <==> DayIndex(a) < DayIndex(b)
    ensures DayKey(a) == DayKey(b) <==> DayIndex(a) == DayIndex(b)
  {
    assert Pow10(7) == 10000000;
    PadOrder(DayIndex(a), DayIndex(b), 7);
  }

  /** Two instants share a day key iff they fall on the same day. */
  lemma DayKeySame(a: int, b: int)
    requires InRange(a) && InRange(b)
    ensures DayKey(a) == DayKey(b) <==> DayIndex(a) == DayIndex(b)
  {
    DayKeyOrder(a, b);
  }

  /** Hour keys compare as strings exactly as the hours they name compare in
      time, and two instants share an hour key iff they fall in one hour. */
  lemma HourKeyOrder(a: int, b: int)
    requires InRange(a) && InRange(b)
    ensures StrLess(HourKey(a), HourKey(b)) <==> HourIndex(a) < HourIndex(b)
    ensures HourKey(a) == HourKey(b) <==> HourIndex(a) == HourIndex(b)
  {
    var ha, hb := a % DaySeconds / HourSeconds, b % DaySeconds / HourSeconds;
    HourOfDay(a);
    HourOfDay(b);
    DayKeyOrder(a, b);
    assert Pow10(2) == 100;
    PadOrder(ha, hb, 2);
    StrLessConcat(DayKey(a), "-", DayKey(b), "-");
    StrLessIrreflexive("-");
    StrLessConcat(DayKey(a) + "-", Pad(ha, 2), DayKey(b) + "-", Pad(hb, 2));
    assert HourKey(a) == (DayKey(a) + "-") + Pad(ha, 2);
    assert HourKey(b) == (DayKey(b) + "-") + Pad(hb, 2);
    if HourKey(a) == HourKey(b) {
      ConcatSplit(DayKey(a) + "-", Pad(ha, 2), DayKey(b) + "-", Pad(hb, 2));
      ConcatSplit(DayKey(a), "-", DayKey(b), "-");
    }
    var da, db := DayIndex(a), DayIndex(b);
    if da < db {
      assert 24 * da + ha < 24 * (da + 1) <= 24 * db;
    } else if db < da {
      assert 24 * db + hb < 24 * (db + 1) <= 24 * da;
    }
    assert StrLess(DayKey(a) + "-", DayKey(b) + "-") <==> da < db;
    assert DayKey(a) + "-" == DayKey(b) + "-" <==> da == db by {
      if DayKey(a) + "-" == DayKey(b) + "-" {
        ConcatSplit(DayKey(a), "-", DayKey(b), "-");
      }
    }
    assert StrLess(Pad(ha, 2), Pad(hb, 2)) <==> ha < hb;
    assert HourIndex(a) < HourIndex(b) <==> da < db || (da == db && ha < hb);
  }

  /** Stepping back by fewer units than an instant that is still in range
      stays in range. */
  lemma BackInRange(t: int, j: int, k: int, unit: int)
    requires unit > 0 && 0 <= j <= k && InRange(t) && InRange(t - k * unit)
    ensures InRange(t - j * unit)
  {
    assert (k - j) * unit >= 0;
    assert t - j * unit == (t - k * unit) + (k - j) * unit;
  }

  /** Two instants share an hour key iff they fall in the same hour. */
  lemma HourKeySame(a: int, b: int)
    requires InRange(a) && InRange(b)
    ensures HourKey(a) == HourKey(b) <==> HourIndex(a) == HourIndex(b)
  {
    HourKeyOrder(a, b);
  }

  /** Going back `n` whole days moves the day index back by `n`. */
  lemma DayIndexBack(t: int, n: int)
    requires t >= 0
    ensures DayIndex(t - n * DaySeconds) == DayIndex(t) - n
  {
    DivSplit(t - n * DaySeconds, DayIndex(t) - n, t % DaySeconds, DaySeconds);
  }

  /** Going back `n` whole hours moves the hour index back by `n`. */
  lemma HourIndexBack(t: int, n: int)
    requires t >= 0
    ensures HourIndex(t - n * HourSeconds) == HourIndex(t) - n
  {
    DivSplit(t - n * HourSeconds, HourIndex(t) - n, t % HourSeconds, HourSeconds);
  }
}
