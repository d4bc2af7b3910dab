/**
 * The pure arithmetic of the session timer: the check-in rule, the split of a
 * second count into hours, minutes and seconds, the HH:MM:SS display text and
 * the clamped progress fraction.
 */
module Clock {
  import opened Digits
  import opened Wrappers

  const CheckInInterval: nat := 15 * 60
  const SecondsPerHour: nat := 3600

  /** A tick that brings the count to `n` opens the check-in dialog. */
  function IsCheckIn(n: nat): (b: bool)
    ensures b <==> n >= CheckInInterval && (n / CheckInInterval) * CheckInInterval == n
  {
    n > 0 && n % CheckInInterval == 0
  }

  /**
   * The check-in counts in (lo, hi], in the order the ticks reach them:
   * what a run of consecutive ticks starting at `lo` fires.
   */
  function CheckInsIn(lo: nat, hi: nat): (r: seq<nat>)
    ensures forall k :: k in r ==> lo < k <= hi && IsCheckIn(k)
    ensures lo <= hi ==> |r| <= hi - lo
    decreases hi
  {
    if hi <= lo then []
    else CheckInsIn(lo, hi - 1) + (if IsCheckIn(hi) then [hi] else [])
  }

  /** Every multiple of the interval in (lo, hi] fires exactly once, and nothing else fires. */
  lemma {:induction false} CheckInsInExact(lo: nat, hi: nat)
    requires lo <= hi
    ensures forall k :: k in CheckInsIn(lo, hi) <==> lo < k <= hi && IsCheckIn(k)
    ensures forall i, j :: 0 <= i < j < |CheckInsIn(lo, hi)| ==> CheckInsIn(lo, hi)[i] < CheckInsIn(lo, hi)[j]
    ensures |CheckInsIn(lo, hi)| == hi / CheckInInterval - lo / CheckInInterval
    decreases hi
  {
    if hi > lo {
      CheckInsInExact(lo, hi - 1);
      var prev := CheckInsIn(lo, hi - 1);
      assert forall k :: k in prev ==> k <= hi - 1;
      if IsCheckIn(hi) {
        var s := prev + [hi];
        forall i, j | 0 <= i < j < |s| ensures s[i] < s[j] {
          if j == |prev| {
            assert s[i] == prev[i] && prev[i] in prev;
          }
        }
        assert hi / CheckInInterval == (hi - 1) / CheckInInterval + 1;
      } else {
        assert hi / CheckInInterval == (hi - 1) / CheckInInterval;
      }
    }
  }

  datatype Hms = Hms(hours: nat, minutes: nat, seconds: nat)

  /** The two `divmod` steps of the timer loop: first by 60, then the minutes by 60. */
  function Split(n: nat): (t: Hms)
    ensures t.hours * SecondsPerHour + t.minutes * 60 + t.seconds == n
    ensures t.minutes < 60 && t.seconds < 60
    ensures t.hours == n / SecondsPerHour
    ensures t.minutes == (n % SecondsPerHour) / 60 && t.seconds == n % 60
  {
    var mins, secs := n / 60, n % 60;
    DivTwice(n);
    Hms(mins / 60, mins % 60, secs)
  }

  /** Dividing by 60 twice is dividing by 3600, and the remainders agree. */
  lemma DivTwice(n: nat)
    ensures (n / 60) / 60 == n / 3600
    ensures (n / 60) % 60 == (n % 3600) / 60
  {
    var h, r := n / 3600, n % 3600;
    assert n == h * 3600 + r && r < 3600;
    var m, s := r / 60, r % 60;
    assert r == m * 60 + s && m < 60;
    assert n == (h * 60 + m) * 60 + s;
    assert n / 60 == h * 60 + m;
  }

  /** The split is the only decomposition with minutes and seconds below 60. */
  lemma SplitUnique(n: nat, t: Hms)
    requires t.hours * SecondsPerHour + t.minutes * 60 + t.seconds == n
    requires t.minutes < 60 && t.seconds < 60
    ensures t == Split(n)
  {
    var rest := t.minutes * 60 + t.seconds;
    assert n == t.hours * 3600 + rest && rest < 3600;
    assert t.hours == n / 3600 && rest == n % 3600;
    assert t.minutes == rest / 60 && t.seconds == rest % 60;
  }

  /** The timer label, "{:02d}:{:02d}:{:02d}" of the split's hours, minutes and seconds. */
  function FormatHms(n: nat): (r: string)
    ensures |r| >= 8 && r[|r| - 6] == ':' && r[|r| - 3] == ':'
  {
    var t := Split(n);
    var h, m, s := Pad2(t.hours), Pad2(t.minutes), Pad2(t.seconds);
    Fields(h, m, s);
    h + ":" + m + ":" + s
  }

  /**
   * The three colon-separated fields of a label read back as n / 3600,
   * (n % 3600) / 60 and n % 60; minutes and seconds take two characters, and
   * the hours field is never wrapped at 24: it grows past two digits from 100
   * hours on.
   */
  lemma FormatHmsFields(n: nat)
    ensures var r := FormatHms(n);
      && |r| >= 8 && r[|r| - 6] == ':' && r[|r| - 3] == ':'
      && AllDigits(r[..|r| - 6]) && AllDigits(r[|r| - 5..|r| - 3]) && AllDigits(r[|r| - 2..])
      && ValueOf(r[..|r| - 6]) == n / SecondsPerHour
      && ValueOf(r[|r| - 5..|r| - 3]) == (n % SecondsPerHour) / 60
      && ValueOf(r[|r| - 2..]) == n % 60
      && (|r| == 8 <==> n < 100 * SecondsPerHour)
  {
    var t := Split(n);
    var h, m, s := Pad2(t.hours), Pad2(t.minutes), Pad2(t.seconds);
    Fields(h, m, s);
    if |h| == 2 {
      HoursFieldBound(h, t.hours);
    }
  }

  /** Where the three fields of a label sit when minutes and seconds are two characters each. */
  lemma Fields(h: string, m: string, s: string)
    requires |m| == 2 && |s| == 2
    ensures var r := h + ":" + m + ":" + s;
      |r| == |h| + 6 && r[..|r| - 6] == h && r[|r| - 6] == ':' && r[|r| - 5..|r| - 3] == m
      && r[|r| - 3] == ':' && r[|r| - 2..] == s
  {
  }

  lemma HoursFieldBound(h: string, hours: nat)
    requires |h| == 2 && AllDigits(h) && ValueOf(h) == hours
    ensures hours < 100
  {
    assert h[..1][..0] == [];
    assert ValueOf(h[..1]) < 10;
  }

  /**
   * Reads a timer label back: hours, a colon, two minute digits below 60, a
   * colon, two second digits below 60. The counterpart of FormatHms.
   */
  function ReadHms(r: string): Option<nat> {
    if |r| < 8 || r[|r| - 6] != ':' || r[|r| - 3] != ':' then None
    else
      var h, m, s := r[..|r| - 6], r[|r| - 5..|r| - 3], r[|r| - 2..];
      if !(AllDigits(h) && AllDigits(m) && AllDigits(s)) then None
      else if ValueOf(m) >= 60 || ValueOf(s) >= 60 then None
      else Some(ValueOf(h) * SecondsPerHour + ValueOf(m) * 60 + ValueOf(s))
  }

  /** The label of a count reads back as that count. */
  lemma ReadFormatRoundTrip(n: nat)
    ensures ReadHms(FormatHms(n)) == Some(n)
  {
    var r := FormatHms(n);
    var t := Split(n);
    FormatHmsFields(n);
    assert ValueOf(r[..|r| - 6]) == t.hours;
    assert ValueOf(r[|r| - 5..|r| - 3]) == t.minutes;
    assert ValueOf(r[|r| - 2..]) == t.seconds;
  }

  /** Distinct counts show distinct labels. */
  lemma FormatHmsInjective(a: nat, b: nat)
    requires FormatHms(a) == FormatHms(b)
    ensures a == b
  {
    ReadFormatRoundTrip(a);
    ReadFormatRoundTrip(b);
  }

  /** The worked examples: the initial label, 3725 seconds and ten hours. */
  lemma FormatHmsExamples()
    ensures FormatHms(0) == "00:00:00"
    ensures FormatHms(3725) == "01:02:05"
    ensures FormatHms(36000) == "10:00:00"
  {
    assert Split(0) == Hms(0, 0, 0);
    assert Split(3725) == Hms(1, 2, 5);
    assert Split(36000) == Hms(10, 0, 0);
    assert Pad2(0) == "00" && Pad2(1) == "01" && Pad2(2) == "02" && Pad2(5) == "05";
    assert DecimalDigits(10) == "10";
  }

  /** A progress bar value num / den, kept exact instead of as a float. */
  datatype Ratio = Ratio(num: nat, den: nat)

  /**
   * `min(worked / (target * 3600), 1.0)`: below the goal the bar shows the
   * worked fraction of it, and from the goal on it is full and stays at 1.
   */
  function Progress(worked: nat, targetHours: nat): (p: Ratio)
    requires targetHours > 0
    ensures p.den == targetHours * SecondsPerHour && p.den > 0
    ensures p.num <= p.den
    ensures p.num == p.den <==> worked >= targetHours * SecondsPerHour
    ensures p.num < p.den ==> p.num == worked
  {
    var goal := targetHours * SecondsPerHour;
    Ratio(if worked < goal then worked else goal, goal)
  }
}
