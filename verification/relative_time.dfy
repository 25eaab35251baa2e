/** The activity feed's relative timestamps (`_format_timestamp`): the elapsed time is
    bucketed into "Just now", minutes, hours or days and rendered as English text. Times
    are whole seconds; parsing the stored text into seconds is outside this module, so
    a stamp arrives already parsed, missing, or marked unparsable. */
module RelativeTime {
  import opened Text

  const MINUTE: int := 60
  const HOUR: int := 3600
  const DAY: int := 86400

  /** The stored timestamp: absent or empty, text no accepted format reads, or an instant. */
  datatype Stamp = Missing | Unparsable | At(seconds: int)

  datatype Bucket = JustNow | Minutes(n: nat) | Hours(n: nat) | Days(n: nat)

  /** The bucket for `elapsed` seconds; a future stamp (negative elapsed time) is "Just now". */
  function BucketOf(elapsed: int): (b: Bucket)
    ensures b == JustNow <==> elapsed < MINUTE
    ensures b.Minutes? <==> MINUTE <= elapsed < HOUR
    ensures b.Hours? <==> HOUR <= elapsed < DAY
    ensures b.Days? <==> DAY <= elapsed
    ensures b.Minutes? ==> 1 <= b.n < 60 && b.n * MINUTE <= elapsed < (b.n + 1) * MINUTE
    ensures b.Hours? ==> 1 <= b.n < 24 && b.n * HOUR <= elapsed < (b.n + 1) * HOUR
    ensures b.Days? ==> 1 <= b.n && b.n * DAY <= elapsed < (b.n + 1) * DAY
  {
    if elapsed < MINUTE then JustNow
    else if elapsed < HOUR then Minutes(elapsed / MINUTE)
    else if elapsed < DAY then Hours(elapsed / HOUR)
    else Days(elapsed / DAY)
  }

  function Plural(n: nat): string {
    if n != 1 then "s" else ""
  }

  /** `f"{n} {unit}{'s' if n != 1 else ''} ago"`. */
  function Count(n: nat, unit: string): (r: string)
    ensures r == Decimal(n) + (" " + unit + Plural(n) + " ago")
  {
    Decimal(n) + " " + unit + Plural(n) + " ago"
  }

  function Render(b: Bucket): string {
    match b
    case JustNow => "Just now"
    case Minutes(n) => Count(n, "min")
    case Hours(n) => Count(n, "hour")
    case Days(n) => Count(n, "day")
  }

  /** `_format_timestamp(timestamp_str)` with the clock read as `now`. */
  function FormatTimestamp(stamp: Stamp, now: int): (r: string)
    ensures stamp.Missing? ==> r == "Just now"
    ensures stamp.Unparsable? ==> r == "Recently"
    ensures stamp.At? && now - stamp.seconds < MINUTE ==> r == "Just now"
    ensures stamp.At? && MINUTE <= now - stamp.seconds < HOUR ==>
      r == Decimal((now - stamp.seconds) / MINUTE) + (" min" + Plural((now - stamp.seconds) / MINUTE) + " ago")
    ensures stamp.At? && HOUR <= now - stamp.seconds < DAY ==>
      r == Decimal((now - stamp.seconds) / HOUR) + (" hour" + Plural((now - stamp.seconds) / HOUR) + " ago")
    ensures stamp.At? && DAY <= now - stamp.seconds ==>
      r == Decimal((now - stamp.seconds) / DAY) + (" day" + Plural((now - stamp.seconds) / DAY) + " ago")
  {
    match stamp
    case Missing => "Just now"
    case Unparsable => "Recently"
    case At(t) => Render(BucketOf(now - t))
  }

  function Rank(b: Bucket): nat {
    match b
    case JustNow => 0
    case Minutes(_) => 1
    case Hours(_) => 2
    case Days(_) => 3
  }

  /** An older stamp never shows a smaller unit, nor a smaller count in the same unit. */
  lemma BucketMonotone(e1: int, e2: int)
    requires e1 <= e2
    ensures Rank(BucketOf(e1)) <= Rank(BucketOf(e2))
    ensures Rank(BucketOf(e1)) == Rank(BucketOf(e2)) && BucketOf(e1) != JustNow ==> BucketOf(e1).n <= BucketOf(e2).n
  {
    var b1 := BucketOf(e1);
    var b2 := BucketOf(e2);
    if b1.Minutes? && b2.Minutes? {
      DivMonotone(e1, e2, MINUTE);
    } else if b1.Hours? && b2.Hours? {
      DivMonotone(e1, e2, HOUR);
    } else if b1.Days? && b2.Days? {
      DivMonotone(e1, e2, DAY);
    }
  }

  lemma DivMonotone(a: int, b: int, d: int)
    requires 0 <= a <= b && d > 0
    ensures a / d <= b / d
  {
    assert (a / d) * d <= a;
    assert b < (b / d + 1) * d;
    ProductOrder(a / d, b / d + 1, d);
  }

  lemma ProductOrder(x: int, y: int, d: int)
    requires d > 0
    ensures x * d < y * d ==> x < y
  {
    if x >= y {
      assert x * d - y * d == (x - y) * d;
    }
  }

  /** A digit string followed by a space splits back into the same digits and tail. */
  lemma DigitsThenSpace(d1: string, x1: string, d2: string, x2: string)
    requires AllDigits(d1) && AllDigits(d2) && |x1| > 0 && |x2| > 0 && x1[0] == ' ' && x2[0] == ' '
    requires d1 + x1 == d2 + x2
    ensures d1 == d2 && x1 == x2
  {
    assert (d1 + x1)[|d1|] == ' ';
    assert (d2 + x2)[|d2|] == ' ';
    assert forall i :: 0 <= i < |d1| ==> (d1 + x1)[i] == d1[i];
    assert forall i :: 0 <= i < |d2| ==> (d2 + x2)[i] == d2[i];
    assert |d1| == |d2|;
    assert d1 == (d1 + x1)[..|d1|];
    assert d2 == (d2 + x2)[..|d2|];
    assert x1 == (d1 + x1)[|d1|..];
    assert x2 == (d2 + x2)[|d2|..];
  }

  predicate IsUnit(u: string) {
    u == "min" || u == "hour" || u == "day"
  }

  lemma CountInjective(n1: nat, u1: string, n2: nat, u2: string)
    requires IsUnit(u1) && IsUnit(u2) && Count(n1, u1) == Count(n2, u2)
    ensures n1 == n2 && u1 == u2
  {
    var x1 := " " + u1 + Plural(n1) + " ago";
    var x2 := " " + u2 + Plural(n2) + " ago";
    DigitsThenSpace(Decimal(n1), x1, Decimal(n2), x2);
    DecimalValue(n1);
    DecimalValue(n2);
    assert x1[1] == u1[0] && x2[1] == u2[0];
  }

  /** Different buckets never render the same text: the feed's wording determines the bucket. */
  lemma RenderInjective(b1: Bucket, b2: Bucket)
    requires Render(b1) == Render(b2)
    ensures b1 == b2
  {
    if b1 != JustNow && b2 != JustNow {
      var u1 := match b1 case Minutes(_) => "min" case Hours(_) => "hour" case _ => "day";
      var u2 := match b2 case Minutes(_) => "min" case Hours(_) => "hour" case _ => "day";
      CountInjective(b1.n, u1, b2.n, u2);
    }
  }
}
