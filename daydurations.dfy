// leif/parse_slo_rules.go, parseDurationWithDays: every run of decimal
// digits followed by 'd' (the leftmost-first matches of `[0-9]+d`, which
// start at the first digit of a run and take all of it) is rewritten as the
// same number of days written in hours, and the result goes to
// time.ParseDuration (module Durations). Text holding a '.' is refused
// first.
//
// The Go code reads the digits with strconv.Atoi (which saturates at the
// largest int64), multiplies by 24 in wrapping 64-bit arithmetic and writes
// the product with strconv.Itoa. That is AtoiDay and the "AsWritten"
// functions below, and SloRules.DecodeDuration uses them. Day writes the
// exact product instead, so that too many days are an overflow error
// instead of a wrapped number; RewriteAgrees shows the two rewrites agree
// on every text whose day counts fit (24 times each below 1<<63), so what
// is proved below with Day carries over to the code as written there.
module DayDurations {
  import opened Wrappers
  import opened Strs
  import opened Durations

  const MaxInt64: int := 0x7fff_ffff_ffff_ffff

  /** The int64 an int wraps around to. */
  function Wrap64(x: int): (r: int)
    ensures -Limit <= r < Limit
    ensures (r - x) % (2 * Limit) == 0
    ensures -Limit <= x < Limit ==> r == x
  {
    (x + Limit) % (2 * Limit) - Limit
  }

  /**
   * The replacement for v days as written: Itoa(Atoi(digits) * 24) + "h" in
   * int64. It agrees with the exact replacement while v * 24 fits in int64.
   */
  function AtoiDay(v: nat): (r: string)
    ensures v * 24 < Limit ==> r == Day(v)
  {
    IntToString(Wrap64((if v <= MaxInt64 then v else MaxInt64) * 24)) + "h"
  }

  /** The replacement for v days: v * 24 hours, written exactly. */
  function Day(v: nat): string
  {
    NatToString(v * 24) + "h"
  }

  /**
   * The text with every maximal run of digits that is followed by 'd'
   * replaced, together with the 'd', by day(its value). A run not followed
   * by 'd' is no match of `[0-9]+d` at any of its positions, so it is copied.
   */
  function Rewrite(s: string, day: nat -> string): string
    decreases |s|
  {
    if s == [] then ""
    else if !IsDigit(s[0]) then [s[0]] + Rewrite(s[1..], day)
    else
      var j := DigitEnd(s, 0);
      assert AllDigits(s[..j]);
      if j < |s| && s[j] == 'd' then day(DigitsValue(s[..j])) + Rewrite(s[j + 1..], day)
      else s[..j] + Rewrite(s[j..], day)
  }

  /** parseDurationWithDays as written. */
  function ParseDurationWithDaysAsWritten(s: string): (r: Result<int>)
    ensures '.' in s ==> r.Err?
  {
    if '.' in s then Err("Duration should not contain fractions")
    else
      RewriteNoDot(s, AtoiDay);
      ParseDuration(Rewrite(s, AtoiDay))
  }

  /** parseDurationWithDays with the days multiplied without wrapping. */
  function ParseDurationWithDays(s: string): (r: Result<int>)
    ensures '.' in s ==> r.Err?
    ensures r.Ok? ==> -Limit <= r.value < Limit
  {
    if '.' in s then Err("Duration should not contain fractions")
    else
      RewriteNoDot(s, Day);
      ParseDuration(Rewrite(s, Day))
  }

  /** Neither replacement writes a '.'. */
  lemma DaysNoDot()
    ensures forall v: nat :: '.' !in AtoiDay(v) && '.' !in Day(v)
  {
    forall v: nat ensures '.' !in AtoiDay(v) && '.' !in Day(v) {
      var w := Wrap64((if v <= MaxInt64 then v else MaxInt64) * 24);
      assert forall c | c in NatToString(if w < 0 then -w else w) :: IsDigit(c);
      assert forall c | c in NatToString(v * 24) :: IsDigit(c);
    }
  }

  /** Rewriting text without '.' with a replacement that writes none gives text without '.'. */
  lemma {:induction false} RewriteNoDot(s: string, day: nat -> string)
    requires '.' !in s
    requires day == AtoiDay || day == Day
    ensures '.' !in Rewrite(s, day)
    decreases |s|
  {
    DaysNoDot();
    if s != [] {
      if !IsDigit(s[0]) {
        RewriteNoDot(s[1..], day);
      } else {
        var j := DigitEnd(s, 0);
        if j < |s| && s[j] == 'd' {
          RewriteNoDot(s[j + 1..], day);
        } else {
          assert forall c | c in s[..j] :: c in s;
          RewriteNoDot(s[j..], day);
        }
      }
    }
  }

  /** Text without digits is copied as it is. */
  lemma {:induction false} RewriteCopies(u: string, rest: string, day: nat -> string)
    requires forall k | 0 <= k < |u| :: !IsDigit(u[k])
    ensures Rewrite(u + rest, day) == u + Rewrite(rest, day)
    decreases |u|
  {
    if u != [] {
      assert (u + rest)[0] == u[0] && (u + rest)[1..] == u[1..] + rest;
      RewriteCopies(u[1..], rest, day);
      assert Rewrite(u + rest, day) == [u[0]] + Rewrite(u[1..] + rest, day);
      assert u == [u[0]] + u[1..];
    } else {
      assert u + rest == rest;
    }
  }

  /** Digits followed by 'd' are replaced. */
  lemma RewriteDayAt(d: string, rest: string, day: nat -> string)
    requires |d| >= 1 && AllDigits(d)
    ensures Rewrite(d + "d" + rest, day) == day(DigitsValue(d)) + Rewrite(rest, day)
  {
    var s := d + "d" + rest;
    DigitEndAt(s, 0, |d|);
    assert s[..|d|] == d && s[|d| + 1..] == rest;
  }

  /** Digits followed by a unit that does not start with 'd' are copied with the unit. */
  lemma RewriteUnitAt(d: string, u: string, rest: string, day: nat -> string)
    requires |d| >= 1 && AllDigits(d)
    requires |u| >= 1 && u[0] != 'd' && forall k | 0 <= k < |u| :: !IsDigit(u[k])
    ensures Rewrite(d + u + rest, day) == d + u + Rewrite(rest, day)
  {
    var s := d + u + rest;
    DigitEndAt(s, 0, |d|);
    assert s[..|d|] == d && s[|d|..] == u + rest;
    RewriteCopies(u, rest, day);
  }

  // ---------------------------------------------------------------------
  // Durations written with days.

  /** A segment of a duration: a count of a unit of Go's time package, or of days. */
  datatype Part = Plain(seg: Seg) | Days(n: nat)

  function RenderPart(p: Part): string
  {
    match p
    case Plain(seg) => Render([seg])
    case Days(n) => NatToString(n) + "d"
  }

  /** The segment in hours: n days become n * 24 hours. */
  function HoursOf(p: Part): Seg
  {
    match p
    case Plain(seg) => seg
    case Days(n) => Seg(n * 24, H)
  }

  function RenderParts(ps: seq<Part>): string
  {
    if ps == [] then "" else RenderPart(ps[0]) + RenderParts(ps[1..])
  }

  function InHours(ps: seq<Part>): (segs: seq<Seg>)
    ensures |segs| == |ps|
  {
    if ps == [] then [] else [HoursOf(ps[0])] + InHours(ps[1..])
  }

  lemma RenderOne(seg: Seg, rest: seq<Seg>)
    ensures Render([seg] + rest) == Render([seg]) + Render(rest)
  {
    assert ([seg] + rest)[1..] == rest;
    assert [seg][1..] == [];
  }

  /** A segment of a unit followed by any text is copied. */
  lemma RewritePlain(seg: Seg, rest: string, day: nat -> string)
    ensures Rewrite(Render([seg]) + rest, day) == Render([seg]) + Rewrite(rest, day)
  {
    var d := NatToString(seg.count);
    var u := Name(seg.unit);
    NameKnown(seg.unit);
    assert u[0] != 'd' by {
      match seg.unit
      case Ns => case Us => case MicroSign => case GreekMu => case Ms => case S => case M => case H =>
    }
    assert Render([seg]) == d + u by {
      assert Render([seg][1..]) == "";
    }
    RewriteUnitAt(d, u, rest, day);
  }

  /** n days followed by any text become n * 24 hours. */
  lemma RewriteDays(n: nat, rest: string, day: nat -> string)
    requires day(n) == Day(n)
    ensures Rewrite(NatToString(n) + "d" + rest, day) == Render([Seg(n * 24, H)]) + Rewrite(rest, day)
  {
    RewriteDayAt(NatToString(n), rest, day);
    DigitsOfNatToString(n);
    assert Render([Seg(n * 24, H)]) == NatToString(n * 24) + "h" by {
      assert Render([Seg(n * 24, H)][1..]) == "";
    }
  }

  /** One part followed by any text: its days are replaced, anything else is copied. */
  lemma RewriteHead(p: Part, rest: string, day: nat -> string)
    requires p.Days? ==> day(p.n) == Day(p.n)
    ensures Rewrite(RenderPart(p) + rest, day) == Render([HoursOf(p)]) + Rewrite(rest, day)
  {
    match p
    case Plain(seg) => RewritePlain(seg, rest, day);
    case Days(n) => RewriteDays(n, rest, day);
  }

  /**
   * Rewriting the days of rendered parts gives the parts rendered in hours,
   * with any replacement that writes the exact hours for their day counts.
   */
  lemma {:induction false} RewriteParts(ps: seq<Part>, day: nat -> string)
    requires forall i | 0 <= i < |ps| && ps[i].Days? :: day(ps[i].n) == Day(ps[i].n)
    ensures Rewrite(RenderParts(ps), day) == Render(InHours(ps))
  {
    if ps != [] {
      var rest := RenderParts(ps[1..]);
      assert RenderParts(ps) == RenderPart(ps[0]) + rest;
      assert forall i | 0 <= i < |ps[1..]| && ps[1..][i].Days? :: day(ps[1..][i].n) == Day(ps[1..][i].n) by {
        assert forall i | 0 <= i < |ps[1..]| :: ps[1..][i] == ps[i + 1];
      }
      RewriteParts(ps[1..], day);
      RewriteHead(ps[0], rest, day);
      assert InHours(ps) == [HoursOf(ps[0])] + InHours(ps[1..]);
      RenderOne(HoursOf(ps[0]), InHours(ps[1..]));
    }
  }

  /** Rendered parts hold no '.'. */
  lemma {:induction false} PartsNoDot(ps: seq<Part>)
    ensures '.' !in RenderParts(ps)
  {
    if ps != [] {
      PartsNoDot(ps[1..]);
      match ps[0]
      case Plain(seg) =>
        RenderShape([seg]);
      case Days(n) =>
        assert forall c | c in NatToString(n) :: IsDigit(c);
    }
  }

  /**
   * A duration written with days and the units of Go's time package, below
   * 1<<63 nanoseconds in total, parses to its total, a day being 24 hours:
   * days may stand anywhere among the other segments.
   */
  lemma ParseParts(ps: seq<Part>)
    requires ps != [] && Total(InHours(ps)) < Limit
    ensures ParseDurationWithDays(RenderParts(ps)) == Ok(Total(InHours(ps)))
  {
    PartsNoDot(ps);
    RewriteParts(ps, Day);
    WithDays(RenderParts(ps), Render(InHours(ps)));
    ParseRendered(InHours(ps));
  }

  /** "<n>d" alone is rewritten to the replacement for n days. */
  lemma DaysText(n: nat, day: nat -> string)
    ensures '.' !in NatToString(n) + "d"
    ensures Rewrite(NatToString(n) + "d", day) == day(n)
  {
    var d := NatToString(n);
    PartsNoDot([Days(n)]);
    assert RenderParts([Days(n)]) == d + "d" + "";
    assert d + "d" == d + "d" + "";
    RewriteDayAt(d, "", day);
    DigitsOfNatToString(n);
  }

  /** Text without '.' is parsed as its rewriting. */
  lemma WithDays(s: string, t: string)
    requires '.' !in s && Rewrite(s, Day) == t
    ensures '.' !in t && ParseDurationWithDays(s) == ParseDuration(t)
  {
    RewriteNoDot(s, Day);
  }

  lemma WithDaysAsWritten(s: string, t: string)
    requires '.' !in s && Rewrite(s, AtoiDay) == t
    ensures '.' !in t && ParseDurationWithDaysAsWritten(s) == ParseDuration(t)
  {
    RewriteNoDot(s, AtoiDay);
  }

  /** "<n>d" is n days when that is below 1<<63 nanoseconds, and an error otherwise. */
  lemma ParseDays(n: nat)
    ensures ParseDurationWithDays(NatToString(n) + "d") ==
      if n * 24 * Hour < Limit then Ok(n * 24 * Hour) else Err("time: invalid duration")
  {
    var m := n * 24;
    DaysText(n, Day);
    WithDays(NatToString(n) + "d", NatToString(m) + "h");
    ParseHours(m);
    TimesIsProduct(m, Hour);
  }

  // ---------------------------------------------------------------------
  // The code as written agrees with the exact rewrite while the days fit.

  /** Every day count of s (a run of digits followed by 'd') is below 1<<63 once multiplied by 24. */
  predicate DaysFit(s: string)
    decreases |s|
  {
    if s == [] then true
    else if !IsDigit(s[0]) then DaysFit(s[1..])
    else
      var j := DigitEnd(s, 0);
      assert AllDigits(s[..j]);
      if j < |s| && s[j] == 'd' then DigitsValue(s[..j]) * 24 < Limit && DaysFit(s[j + 1..])
      else DaysFit(s[j..])
  }

  /** Where every day count fits, the wrapping rewrite as written is the exact one. */
  lemma {:induction false} RewriteAgrees(s: string)
    requires DaysFit(s)
    ensures Rewrite(s, AtoiDay) == Rewrite(s, Day)
    decreases |s|
  {
    if s != [] {
      if !IsDigit(s[0]) {
        RewriteAgrees(s[1..]);
      } else {
        var j := DigitEnd(s, 0);
        assert AllDigits(s[..j]);
        if j < |s| && s[j] == 'd' {
          RewriteAgrees(s[j + 1..]);
        } else {
          RewriteAgrees(s[j..]);
        }
      }
    }
  }

  /** parseDurationWithDays as written gives the exact result on text whose day counts fit. */
  lemma AsWrittenAgrees(s: string)
    requires DaysFit(s)
    ensures ParseDurationWithDaysAsWritten(s) == ParseDurationWithDays(s)
  {
    if '.' !in s {
      RewriteAgrees(s);
    }
  }

  /** The day counts of parts below 1<<63 nanoseconds fit. */
  lemma {:induction false} PartsDaysFit(ps: seq<Part>)
    requires Total(InHours(ps)) < Limit
    ensures forall i | 0 <= i < |ps| && ps[i].Days? :: ps[i].n * 24 < Limit
  {
    CountsWithinTotal(InHours(ps));
    InHoursAt(ps);
  }

  lemma {:induction false} InHoursAt(ps: seq<Part>)
    ensures forall i | 0 <= i < |ps| :: InHours(ps)[i] == HoursOf(ps[i])
  {
    if ps != [] {
      var rest := InHours(ps[1..]);
      InHoursAt(ps[1..]);
      assert InHours(ps) == [HoursOf(ps[0])] + rest;
      forall i | 1 <= i < |ps|
        ensures InHours(ps)[i] == HoursOf(ps[i])
      {
        assert InHours(ps)[i] == rest[i - 1] && ps[1..][i - 1] == ps[i];
      }
    }
  }

  /** ParseParts holds for the code as written. */
  lemma ParsePartsAsWritten(ps: seq<Part>)
    requires ps != [] && Total(InHours(ps)) < Limit
    ensures ParseDurationWithDaysAsWritten(RenderParts(ps)) == Ok(Total(InHours(ps)))
  {
    PartsNoDot(ps);
    PartsDaysFit(ps);
    RewriteParts(ps, AtoiDay);
    WithDaysAsWritten(RenderParts(ps), Render(InHours(ps)));
    ParseRendered(InHours(ps));
  }

  /** ParseDays holds for the code as written while 24 times the day count fits in int64. */
  lemma ParseDaysAsWritten(n: nat)
    requires n * 24 < Limit
    ensures ParseDurationWithDaysAsWritten(NatToString(n) + "d") ==
      if n * 24 * Hour < Limit then Ok(n * 24 * Hour) else Err("time: invalid duration")
  {
    DaysText(n, AtoiDay);
    DaysText(n, Day);
    WithDaysAsWritten(NatToString(n) + "d", Day(n));
    WithDays(NatToString(n) + "d", Day(n));
    ParseDays(n);
  }

  /** A multiple of 2^64 wraps to zero. */
  lemma WrapMultiple(x: int)
    requires x % (2 * Limit) == 0
    ensures Wrap64(x) == 0
  {
    var q := x / (2 * Limit);
    assert x + Limit == 2 * Limit * q + Limit;
  }

  /**
   * As written, n days for a positive n up to the largest int64 whose
   * 24-fold is a multiple of 2^64 (the least is 2^61, in
   * "2305843009213693952d") are rewritten to "0h" and parse to zero.
   */
  lemma DaysWrapAsWritten(n: nat)
    requires 0 < n <= MaxInt64 && (n * 24) % (2 * Limit) == 0
    ensures ParseDurationWithDaysAsWritten(NatToString(n) + "d") == Ok(0)
  {
    DaysText(n, AtoiDay);
    WrapMultiple(n * 24);
    assert AtoiDay(n) == NatToString(0) + "h";
    WithDaysAsWritten(NatToString(n) + "d", NatToString(0) + "h");
    ParseHours(0);
  }

  lemma NonZeroMultiple(x: nat, m: nat)
    requires 0 < x && 0 < m && x % m == 0
    ensures x >= m
  {
  }

  lemma AtLeastFactor(a: nat, b: nat)
    requires b >= 1
    ensures a * b >= a
  {
  }

  /** With the days multiplied exactly, the same texts are an overflow. */
  lemma DaysWrapCorrected(n: nat)
    requires 0 < n && (n * 24) % (2 * Limit) == 0
    ensures ParseDurationWithDays(NatToString(n) + "d") == Err("time: invalid duration")
  {
    ParseDays(n);
    NonZeroMultiple(n * 24, 2 * Limit);
    AtLeastFactor(n * 24, Hour);
  }
}
