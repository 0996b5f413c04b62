/**
  `timedelta_format`: renders a duration as "N unit(s)" parts joined by
  spaces, largest unit first, using a fixed table of unit lengths (a month is
  30 days, a year 365 days).

  The decomposition is defined over any table of units, so that its lemmas
  need only the table's shape; `Periods` is the table the script uses.
 */
module DurationFormat {
  import opened Time

  /** A named unit and its length in seconds. */
  datatype Period = Period(name: string, length: int)

  /** The unit table, largest first. */
  const Periods: seq<Period> := [
    Period("year", 60 * 60 * 24 * 365),
    Period("month", 60 * 60 * 24 * 30),
    Period("day", 60 * 60 * 24),
    Period("hour", 60 * 60),
    Period("minute", 60),
    Period("second", 1)
  ]

  /** One rendered part: a count of some unit. */
  datatype Part = Part(value: nat, period: Period)

  predicate PositiveUnits(units: seq<Period>)
  {
    forall k :: 0 <= k < |units| ==> units[k].length >= 1
  }

  predicate Descending(units: seq<Period>)
  {
    forall j, k :: 0 <= j < k < |units| ==> units[j].length > units[k].length
  }

  predicate EndsInSeconds(units: seq<Period>)
  {
    units != [] && units[|units| - 1].length == 1
  }

  /** The script's table is a descending table of positive lengths ending in seconds. */
  lemma PeriodsTable()
    ensures PositiveUnits(Periods) && Descending(Periods) && EndsInSeconds(Periods)
  {
  }

  /**
    `int(time_delta.total_seconds())` for a duration of `micros` microseconds:
    whole seconds, truncated toward zero.
   */
  function TotalSeconds(micros: int): (r: int)
    ensures micros >= 0 ==> 0 <= r && r * Second <= micros < (r + 1) * Second
    ensures micros < 0 ==> r <= 0 && (r - 1) * Second < micros <= r * Second
  {
    if micros >= 0 then micros / Second else -((-micros) / Second)
  }

  /**
    The parts the loop produces from `seconds` remaining and the `units` still
    to look at: a unit is used only when the remaining seconds STRICTLY exceed
    its length, and then takes the quotient, leaving the remainder.
   */
  function Decompose(seconds: int, units: seq<Period>): (r: seq<Part>)
    requires PositiveUnits(units)
    ensures |r| <= |units|
    ensures forall k :: 0 <= k < |r| ==> r[k].value >= 1
    decreases |units|
  {
    if units == [] then []
    else if seconds > units[0].length then
      [Part(seconds / units[0].length, units[0])] + Decompose(seconds % units[0].length, units[1..])
    else
      Decompose(seconds, units[1..])
  }

  /** The seconds left over once the loop has looked at every unit of `units`. */
  function Leftover(seconds: int, units: seq<Period>): int
    requires PositiveUnits(units)
    decreases |units|
  {
    if units == [] then seconds
    else if seconds > units[0].length then Leftover(seconds % units[0].length, units[1..])
    else Leftover(seconds, units[1..])
  }

  /** The seconds the parts stand for. */
  function Sum(parts: seq<Part>): int
  {
    if parts == [] then 0 else parts[0].value * parts[0].period.length + Sum(parts[1..])
  }

  predicate IsDigit(c: char)
  {
    '0' <= c <= '9'
  }

  /** The number a string of decimal digits denotes. */
  function DigitsValue(digits: string): nat
    requires forall c :: c in digits ==> IsDigit(c)
  {
    if digits == [] then 0
    else
      var last := digits[|digits| - 1];
      assert last in digits && IsDigit(last);
      DigitsValue(digits[..|digits| - 1]) * 10 + (last as int - '0' as int)
  }

  /** The longest prefix of `s` made of decimal digits. */
  function LeadingDigits(s: string): string
  {
    if s == [] || !IsDigit(s[0]) then [] else [s[0]] + LeadingDigits(s[1..])
  }

  /**
    The decimal digits of `n`, as `str` writes an int: digits only, no leading
    zero, and reading them back gives `n`.
   */
  function NatToString(n: nat): (r: string)
    ensures |r| >= 1 && (n > 0 ==> r[0] != '0')
    ensures forall c :: c in r ==> IsDigit(c)
    ensures DigitsValue(r) == n
  {
    if n < 10 then [('0' as int + n) as char]
    else
      var d := NatToString(n / 10);
      var r := d + [('0' as int + n % 10) as char];
      assert r[..|r| - 1] == d;
      r
  }

  /**
    `"%s %s%s" % (value, name, 's' if value > 1 else '')`: the count in
    decimal, a space, the unit name, and an "s" exactly when the count is more
    than one.
   */
  function PartText(p: Part): (r: string)
    ensures var d := NatToString(p.value);
            var n := |d| + 1 + |p.period.name|;
            && |r| == n + (if p.value > 1 then 1 else 0)
            && r[..|d|] == d && r[|d|] == ' ' && r[|d| + 1..n] == p.period.name
            && (p.value > 1 ==> r[n] == 's')
  {
    NatToString(p.value) + " " + p.period.name + (if p.value > 1 then "s" else "")
  }

  /** A string of digits followed by a space reads back as those digits. */
  lemma {:induction false} LeadingDigitsBeforeSpace(d: string, rest: string)
    requires forall c :: c in d ==> IsDigit(c)
    requires rest != [] && rest[0] == ' '
    ensures LeadingDigits(d + rest) == d
    decreases |d|
  {
    if d == [] {
      assert d + rest == rest;
    } else {
      assert (d + rest)[1..] == d[1..] + rest;
      LeadingDigitsBeforeSpace(d[1..], rest);
      assert d == [d[0]] + d[1..];
    }
  }

  /** The count can be read back from the start of a part's text. */
  lemma PartTextReadsBack(p: Part)
    ensures forall c :: c in LeadingDigits(PartText(p)) ==> IsDigit(c)
    ensures DigitsValue(LeadingDigits(PartText(p))) == p.value
  {
    var d := NatToString(p.value);
    var rest := " " + p.period.name + (if p.value > 1 then "s" else "");
    assert PartText(p) == d + rest;
    LeadingDigitsBeforeSpace(d, rest);
  }

  /** A part's text ends in "s" exactly when its count is more than one: no unit name ends in "s". */
  lemma Pluralised(p: Part)
    requires p.period in Periods
    ensures var r := PartText(p); |r| >= 2 && (r[|r| - 1] == 's' <==> p.value > 1)
  {
  }

  function Texts(parts: seq<Part>): seq<string>
  {
    if parts == [] then [] else [PartText(parts[0])] + Texts(parts[1..])
  }

  /** The total length of `strings`. */
  function Length(strings: seq<string>): nat
  {
    if strings == [] then 0 else |strings[0]| + Length(strings[1..])
  }

  /**
    `" ".join(strings)`: the strings in order with one space between
    neighbours, so the result begins with the first string and is as long as
    all of them plus the separators.
   */
  function Join(strings: seq<string>): (r: string)
    ensures strings == [] ==> r == ""
    ensures strings != [] ==> |r| == Length(strings) + |strings| - 1 && r[..|strings[0]|] == strings[0]
  {
    if strings == [] then ""
    else if |strings| == 1 then strings[0]
    else strings[0] + " " + Join(strings[1..])
  }

  /** Joining two non-empty lists is joining each and putting a space between. */
  lemma {:induction false} JoinAppend(a: seq<string>, b: seq<string>)
    requires a != [] && b != []
    ensures Join(a + b) == Join(a) + " " + Join(b)
    decreases |a|
  {
    if |a| == 1 {
      assert (a + b)[1..] == b;
    } else {
      assert (a + b)[1..] == a[1..] + b;
      JoinAppend(a[1..], b);
    }
  }

  /** One turn of the loop: the texts from the first unit of `units` on, in terms of those from the second on. */
  lemma TextsStep(seconds: int, units: seq<Period>)
    requires units != [] && PositiveUnits(units)
    ensures PositiveUnits(units[1..])
    ensures Texts(Decompose(seconds, units)) ==
              if seconds > units[0].length
              then [PartText(Part(seconds / units[0].length, units[0]))] + Texts(Decompose(seconds % units[0].length, units[1..]))
              else Texts(Decompose(seconds, units[1..]))
  {
  }

  /** The loop of `timedelta_format` over the unit table, building the list of part texts and joining it. */
  method TimedeltaFormat(micros: int) returns (text: string)
    ensures PositiveUnits(Periods)
    ensures text == Join(Texts(Decompose(TotalSeconds(micros), Periods)))
  {
    PeriodsTable();
    var seconds := TotalSeconds(micros);
    ghost var goal := Texts(Decompose(seconds, Periods));
    var periods := Periods;
    var strings: seq<string> := [];
    while periods != []
      invariant PositiveUnits(periods)
      invariant strings + Texts(Decompose(seconds, periods)) == goal
      decreases |periods|
    {
      var period := periods[0];
      TextsStep(seconds, periods);
      if seconds > period.length {
        var periodValue := seconds / period.length;
        var text := PartText(Part(periodValue, period));
        ghost var rest := Texts(Decompose(seconds % period.length, periods[1..]));
        seconds := seconds % period.length;
        assert (strings + [text]) + rest == strings + ([text] + rest);
        strings := strings + [text];
      }
      periods := periods[1..];
    }
    assert Texts(Decompose(seconds, [])) == [];
    assert strings + [] == strings;
    text := Join(strings);
  }

  /** Every part uses a unit of the table. */
  lemma {:induction false} DecomposeUnits(seconds: int, units: seq<Period>)
    requires PositiveUnits(units)
    ensures forall p :: p in Decompose(seconds, units) ==> p.period in units
    decreases |units|
  {
    if units != [] {
      var len := units[0].length;
      var next := if seconds > len then seconds % len else seconds;
      DecomposeUnits(next, units[1..]);
      assert units == [units[0]] + units[1..];
    }
  }

  /** The parts' units strictly decrease in size, starting no larger than the table's first unit. */
  lemma {:induction false} DecomposeDescending(seconds: int, units: seq<Period>)
    requires PositiveUnits(units) && Descending(units)
    ensures var parts := Decompose(seconds, units);
            && (units != [] ==> forall p :: p in parts ==> p.period.length <= units[0].length)
            && (forall j, k :: 0 <= j < k < |parts| ==> parts[j].period.length > parts[k].period.length)
    decreases |units|
  {
    if units != [] {
      var len := units[0].length;
      var next := if seconds > len then seconds % len else seconds;
      var rest := Decompose(next, units[1..]);
      DecomposeDescending(next, units[1..]);
      DecomposeUnits(next, units[1..]);
      forall p | p in rest
        ensures p.period.length < len
      {
        var m :| 0 <= m < |units[1..]| && units[1..][m] == p.period;
        assert units[m + 1] == p.period;
      }
    }
  }

  /** Nothing is produced from one second or less: every unit is at least a second long. */
  lemma {:induction false} DecomposeSmall(seconds: int, units: seq<Period>)
    requires PositiveUnits(units) && seconds <= 1
    ensures Decompose(seconds, units) == []
    decreases |units|
  {
    if units != [] {
      DecomposeSmall(seconds, units[1..]);
    }
  }

  /** The parts and the leftover account for every second. */
  lemma {:induction false} DecomposeSum(seconds: int, units: seq<Period>)
    requires PositiveUnits(units)
    ensures Sum(Decompose(seconds, units)) + Leftover(seconds, units) == seconds
    decreases |units|
  {
    if units != [] {
      var len := units[0].length;
      if seconds > len {
        var q, m := seconds / len, seconds % len;
        DecomposeSum(m, units[1..]);
        assert seconds == q * len + m;
      } else {
        DecomposeSum(seconds, units[1..]);
      }
    }
  }

  /**
    From a non-negative count of seconds at most one second is left over, and
    when one is, no part is in seconds.
   */
  lemma {:induction false} LeftoverAtMostOne(seconds: int, units: seq<Period>)
    requires 0 <= seconds
    requires PositiveUnits(units) && Descending(units) && EndsInSeconds(units)
    ensures 0 <= Leftover(seconds, units) <= 1
    ensures Leftover(seconds, units) == 1 ==> forall p :: p in Decompose(seconds, units) ==> p.period.length > 1
    decreases |units|
  {
    var len := units[0].length;
    if |units| > 1 {
      assert len > units[|units| - 1].length;
      LeftoverAtMostOne(if seconds > len then seconds % len else seconds, units[1..]);
    }
  }

  /**
    What `timedelta_format` renders for a non-negative number of seconds: the
    parts add up to the input, or to one second less, in which case no seconds
    part is shown at all.
   */
  lemma RenderedSeconds(seconds: int)
    requires seconds >= 0
    ensures PositiveUnits(Periods)
    ensures var parts := Decompose(seconds, Periods);
            || Sum(parts) == seconds
            || (Sum(parts) == seconds - 1 && forall p :: p in parts ==> p.period.length > 1)
  {
    PeriodsTable();
    DecomposeSum(seconds, Periods);
    LeftoverAtMostOne(seconds, Periods);
  }

  /**
    The loop as evidently intended: a unit is used as soon as the remaining
    seconds reach its length (`>=` where the source has `>`).
   */
  function DecomposeExact(seconds: int, units: seq<Period>): seq<Part>
    requires PositiveUnits(units)
    decreases |units|
  {
    if units == [] then []
    else if seconds >= units[0].length then
      [Part(seconds / units[0].length, units[0])] + DecomposeExact(seconds % units[0].length, units[1..])
    else
      DecomposeExact(seconds, units[1..])
  }

  /** The seconds the intended loop leaves over after looking at every unit of `units`. */
  function LeftoverExact(seconds: int, units: seq<Period>): int
    requires PositiveUnits(units)
    decreases |units|
  {
    if units == [] then seconds
    else if seconds >= units[0].length then LeftoverExact(seconds % units[0].length, units[1..])
    else LeftoverExact(seconds, units[1..])
  }

  lemma {:induction false} DecomposeExactSum(seconds: int, units: seq<Period>)
    requires PositiveUnits(units)
    ensures Sum(DecomposeExact(seconds, units)) + LeftoverExact(seconds, units) == seconds
    decreases |units|
  {
    if units != [] {
      var len := units[0].length;
      if seconds >= len {
        var q, m := seconds / len, seconds % len;
        DecomposeExactSum(m, units[1..]);
        assert seconds == q * len + m;
      } else {
        DecomposeExactSum(seconds, units[1..]);
      }
    }
  }

  /** With `>=`, nothing is left over from a non-negative count of seconds, and a positive one yields a part. */
  lemma {:induction false} NothingLeftOver(seconds: int, units: seq<Period>)
    requires 0 <= seconds
    requires PositiveUnits(units) && EndsInSeconds(units)
    ensures LeftoverExact(seconds, units) == 0
    ensures seconds >= 1 ==> DecomposeExact(seconds, units) != []
    decreases |units|
  {
    var len := units[0].length;
    if |units| > 1 {
      NothingLeftOver(if seconds >= len then seconds % len else seconds, units[1..]);
    }
  }

  /**
    With `>=`, the parts of a non-negative number of seconds account for every
    second, and any positive duration renders as something.
   */
  lemma ExactSum(seconds: int)
    requires 0 <= seconds
    ensures PositiveUnits(Periods)
    ensures Sum(DecomposeExact(seconds, Periods)) == seconds
    ensures seconds >= 1 ==> DecomposeExact(seconds, Periods) != []
  {
    PeriodsTable();
    DecomposeExactSum(seconds, Periods);
    NothingLeftOver(seconds, Periods);
  }

  /**
    The strict comparison as written: 61 seconds render as "1 minute", the
    last second dropped, and 60 seconds as "60 seconds"; the intended
    comparison gives "1 minute 1 second" and "1 minute".
   */
  lemma StrictComparisonDropsASecond()
    ensures PositiveUnits(Periods)
    ensures Decompose(61, Periods) == [Part(1, Periods[4])] && Sum(Decompose(61, Periods)) == 60
    ensures DecomposeExact(61, Periods) == [Part(1, Periods[4]), Part(1, Periods[5])]
    ensures Decompose(60, Periods) == [Part(60, Periods[5])]
    ensures DecomposeExact(60, Periods) == [Part(1, Periods[4])]
  {
    PeriodsTable();
  }
}
