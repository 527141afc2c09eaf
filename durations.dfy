// Go's time.ParseDuration on text without a decimal point: an optional
// sign, then one or more segments of decimal digits followed by a unit,
// summed in nanoseconds into a uint64 with an overflow check after every
// segment; "0"
// alone is zero. This is the grammar leif's duration parsing hands its text
// to; fractions are outside it because that caller rejects every '.'.
//
// The Go parser lexes and sums in one loop. Here the lexing is one pass
// (Lex: the segments up to the first malformed one, and its error) and the
// summing another (Sum); the error reported is the first one the single
// loop would meet: an overflow in a segment before the malformed one, else
// the lexing error.
module Durations {
  import opened Wrappers
  import opened Strs

  /** 1<<63: the magnitude bound the parser checks against. */
  const Limit: int := 0x8000_0000_0000_0000

  const Second: nat := 1_000_000_000
  const Minute: nat := 60 * Second
  const Hour: nat := 60 * Minute

  /** The nanoseconds of a unit name of Go's time package, or None for an unknown unit. */
  function UnitNs(u: string): (r: Option<nat>)
    ensures r.Some? ==> r.value >= 1
  {
    if |u| == 1 then
      (if u[0] == 's' then Some(Second)
       else if u[0] == 'm' then Some(Minute)
       else if u[0] == 'h' then Some(Hour)
       else None)
    else if |u| == 2 && u[1] == 's' then
      (if u[0] == 'n' then Some(1)
       else if u[0] == 'u' || u[0] == 'µ' || u[0] == 'μ' then Some(1000)
       else if u[0] == 'm' then Some(1_000_000)
       else None)
    else None
  }

  /** The unit table of Go's time package. */
  const Units: map<string, nat> := map[
    "ns" := 1, "us" := 1000, "µs" := 1000, "μs" := 1000, "ms" := 1_000_000,
    "s" := Second, "m" := Minute, "h" := Hour]

  /** UnitNs, which decides character by character, agrees with the table. */
  lemma UnitNsTable(u: string)
    ensures UnitNs(u) == if u in Units then Some(Units[u]) else None
  {
    if |u| == 1 {
      assert u == [u[0]];
    } else if |u| == 2 {
      assert u == [u[0], u[1]];
    } else {
      assert forall k | k in Units :: |k| == 1 || |k| == 2;
    }
  }

  /**
   * a times b, written as repeated addition so that the solver's arithmetic
   * stays linear; TimesIsProduct relates it to multiplication.
   */
  function Times(a: nat, b: nat): (p: nat)
    ensures b >= 1 ==> p >= a
    ensures a >= 1 ==> p >= b
  {
    if a == 0 then 0 else Times(a - 1, b) + b
  }

  lemma {:induction false} TimesIsProduct(a: nat, b: nat)
    ensures Times(a, b) == a * b
  {
    if a > 0 {
      TimesIsProduct(a - 1, b);
    }
  }

  /** End of the run of digits that starts at position i of s. */
  function DigitEnd(s: string, i: nat): (j: nat)
    requires i <= |s|
    ensures i <= j <= |s| && (forall k | i <= k < j :: IsDigit(s[k])) && (j < |s| ==> !IsDigit(s[j]))
    decreases |s| - i
  {
    if i == |s| || !IsDigit(s[i]) then i else DigitEnd(s, i + 1)
  }

  /** End of the unit that starts at position i of s: the next digit or '.', or the end. */
  function UnitEnd(s: string, i: nat): (j: nat)
    requires i <= |s|
    ensures i <= j <= |s| && (forall k | i <= k < j :: !IsDigit(s[k]) && s[k] != '.')
    ensures j < |s| ==> IsDigit(s[j]) || s[j] == '.'
    decreases |s| - i
  {
    if i == |s| || IsDigit(s[i]) || s[i] == '.' then i else UnitEnd(s, i + 1)
  }

  /** The number written by the digits of s between positions i and j. */
  function Count(s: string, i: nat, j: nat): nat
    requires i <= j <= |s| && forall k | i <= k < j :: IsDigit(s[k])
    decreases j - i
  {
    if j == i then 0 else Count(s, i, j - 1) * 10 + DigitValue(s[j - 1])
  }

  /** Count reads the same number as the digits cut out of s. */
  lemma {:induction false} CountDigits(s: string, i: nat, j: nat)
    requires i <= j <= |s| && forall k | i <= k < j :: IsDigit(s[k])
    ensures AllDigits(s[i..j]) && Count(s, i, j) == DigitsValue(s[i..j])
    decreases j - i
  {
    if j > i {
      CountDigits(s, i, j - 1);
      assert s[i..j][..j - i - 1] == s[i..j - 1];
    }
  }

  /** One segment: its count and the nanoseconds of its unit. */
  datatype Token = Token(count: nat, ns: nat)

  /** A segment lexed at some position, and the position after it. */
  datatype Lexed = Lexed(token: Token, next: nat)

  /**
   * The segment at position i of s, with the checks of the Go parser in its
   * order: it must start with a digit, its number must not exceed 1<<63,
   * and its unit must be present and known.
   */
  function NextSegment(s: string, i: nat): (r: Result<Lexed>)
    requires i < |s|
    ensures r.Ok? ==> i < r.value.next <= |s| && r.value.token.ns >= 1
  {
    var j := DigitEnd(s, i);
    if j == i then Err("time: invalid duration")
    else
      var v := Count(s, i, j);
      if v > Limit then Err("time: invalid duration")
      else
        var k := UnitEnd(s, j);
        if k == j then Err("time: missing unit in duration")
        else
          var u := UnitNs(s[j..k]);
          if u.None? then Err("time: unknown unit in duration")
          else Ok(Lexed(Token(v, u.value), k))
  }

  /** The segments lexed from a position up to the first malformed one, and its error if there is one. */
  datatype Lexing = Lexing(tokens: seq<Token>, err: Option<string>)

  function Lex(s: string, i: nat): (r: Lexing)
    requires i <= |s|
    decreases |s| - i
  {
    if i == |s| then Lexing([], None)
    else
      match NextSegment(s, i)
      case Err(m) => Lexing([], Some(m))
      case Ok(l) =>
        var rest := Lex(s, l.next);
        Lexing([l.token] + rest.tokens, rest.err)
  }

  /**
   * One segment of p nanoseconds added to the running total acc. A segment
   * may not exceed 1<<63, and neither may the new total. The total is a
   * uint64: as both addends are at most 1<<63, the addition wraps only when
   * both are exactly 1<<63 (only the unit "ns" reaches that), and then the
   * total is 0.
   */
  function Add(acc: nat, p: nat): (r: Result<nat>)
    requires acc <= Limit
    ensures r.Ok? ==> r.value <= Limit
    ensures r.Ok? && acc + p <= Limit ==> r.value == acc + p
    ensures r.Ok? <==> p <= Limit && (acc + p <= Limit || (acc == Limit && p == Limit))
  {
    if p > Limit then Err("time: invalid duration")
    else if acc == Limit && p == Limit then Ok(0)
    else if acc + p > Limit then Err("time: invalid duration")
    else Ok(acc + p)
  }

  /** The segments added one by one to the running total acc. */
  function Sum(ts: seq<Token>, acc: nat): (r: Result<nat>)
    requires acc <= Limit
    ensures r.Ok? ==> r.value <= Limit
  {
    if ts == [] then Ok(acc)
    else
      match Add(acc, Times(ts[0].count, ts[0].ns))
      case Err(m) => Err(m)
      case Ok(a) => Sum(ts[1..], a)
  }

  /** The sum of the segments of s, or the first error the Go loop meets. */
  function Segments(s: string): (r: Result<nat>)
    ensures r.Ok? ==> r.value <= Limit
  {
    var l := Lex(s, 0);
    match Sum(l.tokens, 0)
    case Err(m) => Err(m)
    case Ok(v) => if l.err.Some? then Err(l.err.value) else Ok(v)
  }

  /** time.ParseDuration on text without '.'. */
  function ParseDuration(s: string): (r: Result<int>)
    requires '.' !in s
    ensures r.Ok? ==> -Limit <= r.value < Limit
  {
    var neg := s != [] && s[0] == '-';
    var t := if s != [] && (s[0] == '-' || s[0] == '+') then s[1..] else s;
    if t == "0" then Ok(0)
    else if t == "" then Err("time: invalid duration")
    else
      match Segments(t)
      case Err(m) => Err(m)
      case Ok(d) => if neg then Ok(-(d as int)) else if d > Limit - 1 then Err("time: invalid duration") else Ok(d)
  }

  // ---------------------------------------------------------------------
  // The grammar written forwards: a list of (count, unit) segments rendered
  // as text parses back to the sum of their nanoseconds.

  /** The units, "us", "µs" (micro sign) and "μs" (Greek mu) being three spellings of one. */
  datatype Unit = Ns | Us | MicroSign | GreekMu | Ms | S | M | H

  function Name(u: Unit): string
  {
    match u
    case Ns => "ns" case Us => "us" case MicroSign => "µs" case GreekMu => "μs"
    case Ms => "ms" case S => "s" case M => "m" case H => "h"
  }

  function Nanos(u: Unit): nat
  {
    match u
    case Ns => 1 case Us | MicroSign | GreekMu => 1000 case Ms => 1_000_000
    case S => Second case M => Minute case H => Hour
  }

  /** Every unit name is in the table under the unit's nanoseconds, and holds no digit and no '.'. */
  lemma NameKnown(u: Unit)
    ensures UnitNs(Name(u)) == Some(Nanos(u)) && Units[Name(u)] == Nanos(u)
    ensures |Name(u)| >= 1 && forall i | 0 <= i < |Name(u)| :: !IsDigit(Name(u)[i]) && Name(u)[i] != '.'
  {
  }

  /** A count of some unit. */
  datatype Seg = Seg(count: nat, unit: Unit)

  /** The segments written out, without separators. */
  function Render(segs: seq<Seg>): string
  {
    if segs == [] then "" else NatToString(segs[0].count) + Name(segs[0].unit) + Render(segs[1..])
  }

  /** The nanoseconds the segments add up to. */
  function Total(segs: seq<Seg>): nat
  {
    if segs == [] then 0 else Times(segs[0].count, Nanos(segs[0].unit)) + Total(segs[1..])
  }

  /** The tokens the segments stand for. */
  function Tokens(segs: seq<Seg>): (ts: seq<Token>)
    ensures |ts| == |segs|
  {
    if segs == [] then [] else [Token(segs[0].count, Nanos(segs[0].unit))] + Tokens(segs[1..])
  }

  lemma {:induction false} RenderShape(segs: seq<Seg>)
    ensures '.' !in Render(segs)
    ensures Render(segs) != [] ==> IsDigit(Render(segs)[0])
  {
    if segs != [] {
      RenderShape(segs[1..]);
      NameKnown(segs[0].unit);
      var d := NatToString(segs[0].count);
      assert Render(segs) == d + Name(segs[0].unit) + Render(segs[1..]);
      assert forall c | c in d :: IsDigit(c);
    }
  }

  /** The run of digits at i ends at the first position that does not hold a digit. */
  lemma {:induction false} DigitEndAt(s: string, i: nat, j: nat)
    requires i <= j <= |s| && (forall k | i <= k < j :: IsDigit(s[k])) && (j < |s| ==> !IsDigit(s[j]))
    ensures DigitEnd(s, i) == j
    decreases j - i
  {
    if i < j {
      DigitEndAt(s, i + 1, j);
    }
  }

  /** The unit at i ends at the first digit or '.'. */
  lemma {:induction false} UnitEndAt(s: string, i: nat, j: nat)
    requires i <= j <= |s| && (forall k | i <= k < j :: !IsDigit(s[k]) && s[k] != '.')
    requires j < |s| ==> IsDigit(s[j]) || s[j] == '.'
    ensures UnitEnd(s, i) == j
    decreases j - i
  {
    if i < j {
      UnitEndAt(s, i + 1, j);
    }
  }

  /**
   * Digits between i and j, then a known unit up to k, followed by a digit
   * or the end: one segment.
   */
  lemma SegmentAt(s: string, i: nat, j: nat, k: nat)
    requires i < j < k <= |s| && forall m | i <= m < j :: IsDigit(s[m])
    requires forall m | j <= m < k :: !IsDigit(s[m]) && s[m] != '.'
    requires k < |s| ==> IsDigit(s[k])
    requires UnitNs(s[j..k]).Some? && Count(s, i, j) <= Limit
    ensures NextSegment(s, i) == Ok(Lexed(Token(Count(s, i, j), UnitNs(s[j..k]).value), k))
  {
    DigitEndAt(s, i, j);
    UnitEndAt(s, j, k);
  }

  /** The pieces of a text known to be d, then u, then the rest, from position i. */
  lemma SliceParts(s: string, i: nat, d: string, u: string, tail: string)
    requires i <= |s| && s[i..] == d + u + tail
    ensures i + |d| + |u| <= |s| && s[i + |d| + |u|..] == tail
    ensures s[i..i + |d|] == d && s[i + |d|..i + |d| + |u|] == u
    ensures forall m | i <= m < i + |d| :: s[m] == d[m - i]
    ensures forall m | i + |d| <= m < i + |d| + |u| :: s[m] == u[m - i - |d|]
  {
    assert s[i..i + |d|] == (d + u + tail)[..|d|] == d;
    assert s[i + |d|..i + |d| + |u|] == (d + u + tail)[|d|..|d| + |u|] == u;
    assert s[i + |d| + |u|..] == (d + u + tail)[|d| + |u|..] == tail;
  }

  /** Where the first rendered segment ends. */
  function FrontEnd(segs: seq<Seg>, i: nat): nat
    requires segs != []
  {
    i + |NatToString(segs[0].count)| + |Name(segs[0].unit)|
  }

  /** The pieces of the first rendered segment at position i: its digits up to j, its unit up to k, and the rest. */
  lemma RenderPieces(segs: seq<Seg>, s: string, i: nat, j: nat, k: nat)
    requires segs != [] && i <= |s| && s[i..] == Render(segs)
    requires j == i + |NatToString(segs[0].count)| && k == j + |Name(segs[0].unit)|
    ensures i < j < k <= |s|
    ensures s[k..] == Render(segs[1..])
    ensures s[i..j] == NatToString(segs[0].count) && s[j..k] == Name(segs[0].unit)
    ensures forall m | i <= m < j :: IsDigit(s[m])
    ensures forall m | j <= m < k :: !IsDigit(s[m]) && s[m] != '.'
    ensures k < |s| ==> IsDigit(s[k])
  {
    var d := NatToString(segs[0].count);
    var u := Name(segs[0].unit);
    var tail := Render(segs[1..]);
    SliceParts(s, i, d, u, tail);
    NameKnown(segs[0].unit);
    RenderShape(segs[1..]);
    assert k < |s| ==> IsDigit(s[k]) by {
      if k < |s| {
        assert s[k] == s[k..][0] == tail[0];
      }
    }
  }

  /** The first of the rendered segments at position i is lexed as its count and unit. */
  lemma RenderFront(segs: seq<Seg>, s: string, i: nat)
    requires segs != [] && i <= |s| && s[i..] == Render(segs) && segs[0].count <= Limit
    ensures FrontEnd(segs, i) <= |s| && s[FrontEnd(segs, i)..] == Render(segs[1..])
    ensures i < |s| && NextSegment(s, i) == Ok(Lexed(Token(segs[0].count, Nanos(segs[0].unit)), FrontEnd(segs, i)))
  {
    var j := i + |NatToString(segs[0].count)|;
    var k := FrontEnd(segs, i);
    RenderPieces(segs, s, i, j, k);
    CountDigits(s, i, j);
    DigitsOfNatToString(segs[0].count);
    assert Count(s, i, j) == segs[0].count;
    NameKnown(segs[0].unit);
    assert UnitNs(s[j..k]) == Some(Nanos(segs[0].unit));
    SegmentAt(s, i, j, k);
  }

  /** Every count is at most the total. */
  lemma {:induction false} CountsWithinTotal(segs: seq<Seg>)
    ensures forall m | 0 <= m < |segs| :: segs[m].count <= Total(segs)
  {
    if segs != [] {
      CountsWithinTotal(segs[1..]);
      assert forall m | 1 <= m < |segs| :: segs[m] == segs[1..][m - 1];
    }
  }

  /** Rendered segments at position i are lexed back, one token per segment, without error. */
  lemma {:induction false} LexRender(segs: seq<Seg>, s: string, i: nat)
    requires i <= |s| && s[i..] == Render(segs)
    requires forall m | 0 <= m < |segs| :: segs[m].count <= Limit
    ensures Lex(s, i) == Lexing(Tokens(segs), None)
    decreases |segs|
  {
    if segs == [] {
      assert |s[i..]| == 0;
    } else {
      RenderFront(segs, s, i);
      var next := FrontEnd(segs, i);
      assert forall m | 0 <= m < |segs[1..]| :: segs[1..][m].count <= Limit by {
        assert forall m | 0 <= m < |segs[1..]| :: segs[1..][m] == segs[m + 1];
      }
      LexRender(segs[1..], s, next);
    }
  }

  /** Segments whose total is within the bound have every count within it. */
  lemma CountsBounded(segs: seq<Seg>)
    requires Total(segs) <= Limit
    ensures forall m | 0 <= m < |segs| :: segs[m].count <= Limit
  {
    CountsWithinTotal(segs);
  }

  /** The tokens of the segments add up to their total. */
  lemma {:induction false} SumTokens(segs: seq<Seg>, acc: nat)
    requires acc + Total(segs) <= Limit
    ensures Sum(Tokens(segs), acc) == Ok(acc + Total(segs))
  {
    if segs != [] {
      var p := Times(segs[0].count, Nanos(segs[0].unit));
      assert Tokens(segs)[1..] == Tokens(segs[1..]);
      SumTokens(segs[1..], acc + p);
    }
  }

  /** Rendered segments whose total is within the bound sum to that total. */
  lemma {:induction false} SegmentsRender(segs: seq<Seg>)
    requires Total(segs) <= Limit
    ensures Segments(Render(segs)) == Ok(Total(segs))
  {
    var s := Render(segs);
    SumTokens(segs, 0);
    LexRendered(segs);
    SegmentsOk(s, Tokens(segs), Total(segs));
  }

  /** Rendered segments within the bound lex without error to their own tokens. */
  lemma LexRendered(segs: seq<Seg>)
    requires Total(segs) <= Limit
    ensures Lex(Render(segs), 0) == Lexing(Tokens(segs), None)
  {
    var s := Render(segs);
    CountsBounded(segs);
    assert s[0..] == s;
    LexRender(segs, s, 0);
  }

  /** Text lexed without error whose tokens sum to v has the value v. */
  lemma SegmentsOk(s: string, ts: seq<Token>, v: nat)
    requires Lex(s, 0).tokens == ts && Lex(s, 0).err.None? && Sum(ts, 0) == Ok(v)
    ensures Segments(s) == Ok(v)
  {
  }

  /** Text that starts with a rendered segment is not "0". */
  lemma RenderedNotZero(segs: seq<Seg>)
    requires segs != []
    ensures Render(segs) != "0"
  {
    var d := NatToString(segs[0].count);
    NameKnown(segs[0].unit);
    assert Render(segs) == d + Name(segs[0].unit) + Render(segs[1..]);
    assert |Render(segs)| >= |d| + |Name(segs[0].unit)| >= 2;
  }

  /**
   * A duration written as segments of whole units, smaller than 1<<63
   * nanoseconds, parses to the sum of its segments.
   */
  lemma ParseRendered(segs: seq<Seg>)
    requires segs != [] && Total(segs) < Limit
    ensures '.' !in Render(segs)
    ensures ParseDuration(Render(segs)) == Ok(Total(segs))
  {
    RenderShape(segs);
    RenderedNotZero(segs);
    SegmentsRender(segs);
    ParseOfSegments(Render(segs), Total(segs));
  }

  /** The same text with a leading '-' parses to the negated sum, down to -1<<63. */
  lemma ParseRenderedNegative(segs: seq<Seg>)
    requires segs != [] && Total(segs) <= Limit
    ensures '.' !in "-" + Render(segs)
    ensures ParseDuration("-" + Render(segs)) == Ok(-(Total(segs) as int))
  {
    RenderShape(segs);
    RenderedNotZero(segs);
    SegmentsRender(segs);
    ParseOfSegments(Render(segs), Total(segs));
  }

  /**
   * The uint64 total wraps: two segments of n = 1<<63 nanoseconds add up to
   * 2^64, which is 0 in the total, so the text parses to zero with no error.
   */
  lemma NanosecondsWrap(n: nat)
    requires n == Limit
    ensures var s := NatToString(n) + "ns" + NatToString(n) + "ns";
      '.' !in s && ParseDuration(s) == Ok(0)
  {
    var segs := [Seg(n, Ns), Seg(n, Ns)];
    RenderTwo(Seg(n, Ns), Seg(n, Ns));
    WrapTokens(segs, n);
    var s := Render(segs);
    RenderShape(segs);
    RenderedNotZero(segs);
    ParseOfSegments(s, 0);
  }

  lemma RenderTwo(a: Seg, b: Seg)
    ensures Render([a, b]) == NatToString(a.count) + Name(a.unit) + NatToString(b.count) + Name(b.unit)
  {
    assert [a, b][1..] == [b];
    assert [b][1..] == [];
    var x, y := NatToString(a.count) + Name(a.unit), NatToString(b.count) + Name(b.unit);
    assert Render([b]) == y + "" == y;
    assert Render([a, b]) == x + y;
  }

  lemma {:induction false} WrapTokens(segs: seq<Seg>, n: nat)
    requires n == Limit && segs == [Seg(n, Ns), Seg(n, Ns)]
    ensures Segments(Render(segs)) == Ok(0)
  {
    var s := Render(segs);
    assert s[0..] == s;
    LexRender(segs, s, 0);
    var ts := Tokens(segs);
    assert ts == [Token(n, 1), Token(n, 1)];
    TimesIsProduct(n, 1);
    WrapSum(ts, n);
    SegmentsOk(s, ts, 0);
  }

  lemma WrapSum(ts: seq<Token>, n: nat)
    requires n == Limit && ts == [Token(n, 1), Token(n, 1)] && Times(n, 1) == n
    ensures Sum(ts, 0) == Ok(0)
  {
    assert Add(0, n) == Ok(n);
    assert Add(n, n) == Ok(0);
    assert ts[1..] == [Token(n, 1)] && ts[1..][1..] == [];
    assert Sum(ts[1..][1..], 0) == Ok(0);
    assert Sum(ts[1..], n) == Ok(0);
  }

  /** Digit-led text other than "0" whose segments sum to v parses to v, and with a '-' to -v. */
  lemma ParseOfSegments(s: string, v: nat)
    requires s != [] && IsDigit(s[0]) && s != "0" && '.' !in s && Segments(s) == Ok(v)
    ensures '.' !in "-" + s
    ensures ParseDuration("-" + s) == Ok(-(v as int))
    ensures v < Limit ==> ParseDuration(s) == Ok(v)
  {
    var t := "-" + s;
    assert t[0] == '-' && t[1..] == s;
    assert forall k | 0 <= k < |t| :: t[k] != '.' by {
      forall k | 0 <= k < |t| ensures t[k] != '.' {
        if k > 0 {
          assert t[k] == s[k - 1];
        }
      }
    }
  }

  /** "<n>h" with n at most 1<<63 is lexed as one token of n hours. */
  lemma HoursLexed(n: nat)
    requires n <= Limit
    ensures Lex(NatToString(n) + "h", 0) == Lexing([Token(n, Hour)], None)
  {
    var segs := [Seg(n, H)];
    var s := NatToString(n) + "h";
    assert Render(segs) == s;
    assert s[0..] == s;
    LexRender(segs, s, 0);
    assert Tokens(segs) == [Token(n, Hour)];
  }

  /** "<n>h" with n above 1<<63 fails in its digits. */
  lemma HoursTooLong(n: nat)
    requires n > Limit
    ensures Lex(NatToString(n) + "h", 0) == Lexing([], Some("time: invalid duration"))
  {
    var s := NatToString(n) + "h";
    var d := NatToString(n);
    SliceParts(s, 0, d, "", "h");
    CountDigits(s, 0, |d|);
    DigitsOfNatToString(n);
    DigitEndAt(s, 0, |d|);
  }

  /** The segments of "<n>h": n hours when that is within 1<<63 nanoseconds, an error otherwise. */
  lemma HoursSegments(n: nat)
    ensures Segments(NatToString(n) + "h") ==
      if Times(n, Hour) <= Limit then Ok(Times(n, Hour)) else Err("time: invalid duration")
  {
    if n <= Limit {
      HoursLexed(n);
      var ts := [Token(n, Hour)];
      assert ts[1..] == [];
      var p := Times(n, Hour);
      assert Sum(ts, 0) == if p > Limit then Err("time: invalid duration") else Ok(p);
    } else {
      HoursTooLong(n);
    }
  }

  /** n hours, written "<n>h", parse to n hours when that is below 1<<63 nanoseconds, and fail otherwise. */
  lemma ParseHours(n: nat)
    ensures '.' !in NatToString(n) + "h"
    ensures ParseDuration(NatToString(n) + "h") ==
      if Times(n, Hour) < Limit then Ok(Times(n, Hour)) else Err("time: invalid duration")
  {
    var segs := [Seg(n, H)];
    assert Render(segs) == NatToString(n) + "h";
    RenderShape(segs);
    RenderedNotZero(segs);
    HoursSegments(n);
  }
}
