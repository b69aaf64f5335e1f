/** `timeAgo` of components/VoteReasons.tsx: a vote's block time, in milliseconds,
    shown as its age relative to the current time ("3 days ago", "just now").
    The current time is a parameter instead of a clock reading. */
module RelativeAge {
  import opened Decimal

  type Positive = x: int | x > 0 witness 1

  /** One row of the unit table: its English name and its length in seconds. */
  datatype TimeUnit = TimeUnit(name: string, seconds: Positive)

  /** The unit table, in the order the loop visits it (largest first). */
  const Units: seq<TimeUnit> := [
    TimeUnit("year", 31536000),
    TimeUnit("month", 2592000),
    TimeUnit("week", 604800),
    TimeUnit("day", 86400),
    TimeUnit("hour", 3600),
    TimeUnit("minute", 60)
  ]

  /** The age to display: either no unit applies, or a whole count of one unit. */
  datatype Age = JustNow | Ago(count: nat, unit: TimeUnit)

  /** Whole seconds between `timestamp` and `now`, both in milliseconds, rounded
      down as `Math.floor` does (negative for a timestamp in the future). */
  function ElapsedSeconds(now: int, timestamp: int): (seconds: int)
    ensures seconds * 1000 <= now - timestamp < (seconds + 1) * 1000
  {
    DivBounds(now - timestamp, 1000);
    (now - timestamp) / 1000
  }

  /** The block's timestamp, which the chain gives in whole seconds, as the
      milliseconds `timeAgo` takes. */
  function BlockTimeMillis(blockSeconds: nat): (ms: nat)
    ensures ms % 1000 == 0 && ms / 1000 == blockSeconds
  {
    blockSeconds * 1000
  }

  /** For a block time only the whole seconds of the clock count: the elapsed
      time is the clock's whole seconds minus the block's. */
  lemma BlockElapsedSeconds(now: int, blockSeconds: nat)
    ensures ElapsedSeconds(now, BlockTimeMillis(blockSeconds)) == now / 1000 - blockSeconds
  {
    var q, r := now / 1000, now % 1000;
    assert now - BlockTimeMillis(blockSeconds) == (q - blockSeconds) * 1000 + r;
  }

  /** `c` is the whole number of `s`-second units in `e` seconds, and at least one. */
  predicate IsWholeCount(e: int, c: int, s: Positive) {
    1 <= c && c * s <= e < (c + 1) * s
  }

  /** The age chosen by the table rows from `i` on: the first row whose whole
      count in `elapsed` is at least one. */
  function AgeFrom(elapsed: int, i: nat): (a: Age)
    requires i <= |Units|
    ensures a.Ago? ==> IsWholeCount(elapsed, a.count, a.unit.seconds)
    decreases |Units| - i
  {
    if i == |Units| then JustNow
    else if elapsed / Units[i].seconds >= 1 then
      WholeCount(elapsed, Units[i].seconds);
      Ago(elapsed / Units[i].seconds, Units[i])
    else AgeFrom(elapsed, i + 1)
  }

  /** The age the whole table gives; a count it gives is the whole number of
      its unit in the elapsed time. */
  function AgeOf(elapsed: int): (a: Age)
    ensures a.Ago? ==> IsWholeCount(elapsed, a.count, a.unit.seconds)
  {
    AgeFrom(elapsed, 0)
  }

  /** The text shown for an age: the count, the unit with an "s" when the count
      exceeds one, then "ago". */
  function Render(a: Age): (text: string)
    ensures a.Ago? ==> |text| > 4 && text[|text| - 4..] == " ago"
    ensures a.Ago? ==>
      |text| == |NatToString(a.count)| + 1 + |a.unit.name| + (if a.count > 1 then 1 else 0) + 4
  {
    match a
    case JustNow => "just now"
    case Ago(count, unit) => NatToString(count) + " " + unit.name + (if count > 1 then "s" else "") + " ago"
  }

  /** The source's loop over the unit table with its early return. */
  method TimeAgo(now: int, timestamp: int) returns (text: string)
    ensures text == Render(AgeOf(ElapsedSeconds(now, timestamp)))
  {
    var timeDifference := (now - timestamp) / 1000;
    var i := 0;
    while i < |Units|
      invariant 0 <= i <= |Units|
      invariant AgeFrom(timeDifference, i) == AgeOf(timeDifference)
    {
      var count := timeDifference / Units[i].seconds;
      if count >= 1 {
        return NatToString(count) + " " + Units[i].name + (if count > 1 then "s" else "") + " ago";
      }
      i := i + 1;
    }
    return "just now";
  }

  /** Row `k` is the unit the table picks for `elapsed`: it fits, and no earlier row does. */
  ghost predicate IsChosenUnit(elapsed: int, k: int) {
    0 <= k < |Units| && Units[k].seconds <= elapsed &&
    forall j :: 0 <= j < k ==> elapsed < Units[j].seconds
  }

  lemma DivAtLeastOne(e: int, s: Positive)
    ensures e / s >= 1 <==> s <= e
  {
    if s <= e {
      assert e / s >= s / s;
    } else if e >= 0 {
      assert e / s == 0;
    }
  }

  lemma DivBounds(e: int, s: Positive)
    ensures (e / s) * s <= e < (e / s + 1) * s
  {
    var q, r := e / s, e % s;
    assert e == q * s + r && 0 <= r < s;
    assert (q + 1) * s == q * s + s;
  }

  lemma WholeCount(e: int, s: Positive)
    requires e / s >= 1
    ensures IsWholeCount(e, e / s, s)
  {
    DivBounds(e, s);
  }

  lemma {:induction false} AgeFromChoice(e: int, i: nat)
    requires i <= |Units|
    ensures AgeFrom(e, i) == JustNow <==> forall j :: i <= j < |Units| ==> e < Units[j].seconds
    ensures AgeFrom(e, i).Ago? ==>
      exists k :: i <= k < |Units| && Units[k].seconds <= e &&
        (forall j :: i <= j < k ==> e < Units[j].seconds) &&
        AgeFrom(e, i) == Ago(e / Units[k].seconds, Units[k])
    decreases |Units| - i
  {
    if i < |Units| {
      DivAtLeastOne(e, Units[i].seconds);
      AgeFromChoice(e, i + 1);
      if e / Units[i].seconds < 1 && AgeFrom(e, i).Ago? {
        var k :| i + 1 <= k < |Units| && Units[k].seconds <= e &&
          (forall j :: i + 1 <= j < k ==> e < Units[j].seconds) &&
          AgeFrom(e, i + 1) == Ago(e / Units[k].seconds, Units[k]);
        assert forall j :: i <= j < k ==> e < Units[j].seconds;
      }
    }
  }

  /** Every row of the table is at least a minute long. */
  lemma UnitsAtLeastAMinute()
    ensures forall j :: 0 <= j < |Units| ==> Units[j].seconds >= 60
    ensures Units[|Units| - 1].seconds == 60
  {
  }

  /** "just now" is shown exactly when fewer than 60 whole seconds have passed,
      which includes every timestamp in the future. */
  lemma {:induction false} JustNowIff(elapsed: int)
    ensures AgeOf(elapsed) == JustNow <==> elapsed < 60
  {
    AgeFromChoice(elapsed, 0);
    UnitsAtLeastAMinute();
  }

  /** Otherwise the unit is the first row that fits, and the count is the whole
      number of those units in the elapsed time. */
  lemma {:induction false} AgoChoosesFirstFittingUnit(elapsed: int)
    requires elapsed >= 60
    ensures AgeOf(elapsed).Ago?
    ensures exists k :: IsChosenUnit(elapsed, k) && AgeOf(elapsed).unit == Units[k]
    ensures var c, s := AgeOf(elapsed).count, AgeOf(elapsed).unit.seconds;
      1 <= c && c * s <= elapsed < (c + 1) * s
  {
    JustNowIff(elapsed);
    AgeFromChoice(elapsed, 0);
    var k :| 0 <= k < |Units| && Units[k].seconds <= elapsed &&
      (forall j :: 0 <= j < k ==> elapsed < Units[j].seconds) &&
      AgeOf(elapsed) == Ago(elapsed / Units[k].seconds, Units[k]);
    assert IsChosenUnit(elapsed, k);
  }

  /** A rendered age reads "just now" exactly for `JustNow`. */
  lemma RenderJustNowIff(a: Age)
    ensures Render(a) == "just now" <==> a == JustNow
  {
    if a.Ago? {
      var r := Render(a);
      assert r[|r| - 1] == 'o';
    }
  }

  /** A counted age shows the count in decimal, a space, then the unit's name. */
  lemma RenderShowsCountAndUnit(c: nat, u: TimeUnit)
    ensures var r, d := Render(Ago(c, u)), NatToString(c);
      |d| + 1 + |u.name| <= |r| && r[..|d|] == d && DigitsValue(r[..|d|]) == c &&
      r[|d|] == ' ' && r[|d| + 1..|d| + 1 + |u.name|] == u.name
  {
    var r, d := Render(Ago(c, u)), NatToString(c);
    var tail := (if c > 1 then "s" else "") + " ago";
    assert r == d + [' '] + u.name + tail;
    assert r[..|d|] == d;
    assert r[|d| + 1..|d| + 1 + |u.name|] == u.name;
    NatToStringRoundTrip(c);
  }

  /** The unit name carries a plural "s" exactly when the count exceeds one. */
  lemma PluralIff(count: nat, k: nat)
    requires k < |Units|
    ensures var r := Render(Ago(count, Units[k]));
      |r| >= 5 && (r[|r| - 5..] == "s ago" <==> count > 1)
  {
    var r := Render(Ago(count, Units[k]));
    var name := Units[k].name;
    assert name[|name| - 1] != 's';
    if count <= 1 {
      assert r[|r| - 5] == name[|name| - 1];
    }
  }

  /** The displayed text is "just now" exactly when under a minute has passed. */
  lemma TimeAgoJustNowIff(now: int, timestamp: int)
    ensures Render(AgeOf(ElapsedSeconds(now, timestamp))) == "just now"
      <==> ElapsedSeconds(now, timestamp) < 60
  {
    JustNowIff(ElapsedSeconds(now, timestamp));
    RenderJustNowIff(AgeOf(ElapsedSeconds(now, timestamp)));
  }

  /** Ninety seconds ago is one minute ago, singular. */
  lemma NinetySecondsExample(t: int)
    ensures Render(AgeOf(ElapsedSeconds(t + 90000, t))) == "1 minute ago"
  {
    assert ElapsedSeconds(t + 90000, t) == 90;
    assert AgeOf(90) == Ago(1, Units[5]);
    assert NatToString(1) == "1";
  }

  /** Two hours ago is counted in hours, plural. */
  lemma TwoHoursExample(t: int)
    ensures Render(AgeOf(ElapsedSeconds(t + 7200000, t))) == "2 hours ago"
  {
    assert ElapsedSeconds(t + 7200000, t) == 7200;
    assert AgeOf(7200) == Ago(2, Units[4]);
    assert NatToString(2) == "2";
  }
}
