/** Clock times as the user-input section handles them. A 12-hour bound is
    one of the strings "hh:mm AM" / "hh:mm PM" offered for hours 1 to 12
    and minutes 0 to 59; it is parsed with the format "%I:%M %p", compared
    as a time of day (12 AM is hour 0, 12 PM is hour 12) and written back
    with the same format. A 24-hour bound is a time of day written with
    "%H:%M". A time of day is a count of minutes since midnight. */
module Clock {
  import opened Seqs

  type Hour12 = h: int | 1 <= h <= 12 witness 1
  type Minute = m: int | 0 <= m < 60
  /** Minutes since midnight. */
  type MinuteOfDay = m: int | 0 <= m < 1440

  /** A 12-hour clock reading. */
  datatype Clock12 = Clock12(hour: Hour12, minute: Minute, pm: bool)

  /** The hour `%I` with `%p` stands for on a 24-hour clock. */
  function Hour24(c: Clock12): (h: int)
    ensures 0 <= h < 24
    ensures c.pm <==> h >= 12
    ensures h % 12 == c.hour % 12
  {
    c.hour % 12 + (if c.pm then 12 else 0)
  }

  /** The time of day a 12-hour reading denotes. */
  function Minutes(c: Clock12): MinuteOfDay {
    Hour24(c) * 60 + c.minute
  }

  /** The 12-hour reading of a time of day, as `%I:%M %p` writes it. */
  function FromMinutes(m: MinuteOfDay): Clock12 {
    var h := m / 60;
    Clock12(if h % 12 == 0 then 12 else h % 12, m % 60, h >= 12)
  }

  /** Midnight is 12:00 AM and noon is 12:00 PM. */
  lemma MidnightAndNoon()
    ensures Minutes(Clock12(12, 0, false)) == 0
    ensures Minutes(Clock12(12, 0, true)) == 720
    ensures forall h: Hour12 :: h < 12 ==> Minutes(Clock12(h, 0, false)) == h * 60
  {
  }

  /** Every 12-hour reading denotes a different time of day: reading it
      back gives the same reading. */
  lemma FromMinutesOfMinutes(c: Clock12)
    ensures FromMinutes(Minutes(c)) == c
  {
    var m := Minutes(c);
    assert m / 60 == Hour24(c) && m % 60 == c.minute;
  }

  /** Every time of day has a 12-hour reading. */
  lemma MinutesOfFromMinutes(m: MinuteOfDay)
    ensures Minutes(FromMinutes(m)) == m
  {
  }

  /** Comparing two readings as times of day is comparing their minutes. */
  predicate Later(a: Clock12, b: Clock12) {
    Minutes(a) > Minutes(b)
  }

  /** 12 AM is earlier than every other hour of the morning, and every
      morning reading is earlier than every afternoon reading. */
  lemma LaterOrder(a: Clock12, b: Clock12)
    ensures !a.pm && b.pm ==> !Later(a, b)
    ensures !a.pm && !b.pm && a.hour == 12 && b.hour != 12 ==> !Later(a, b)
    ensures a.pm == b.pm && a.hour == b.hour ==> (Later(a, b) <==> a.minute > b.minute)
  {
  }

  function Digit(n: int): char
    requires 0 <= n < 10
  {
    ('0' as int + n) as char
  }

  predicate IsDigit(c: char) {
    '0' <= c <= '9'
  }

  function DigitValue(c: char): int
    requires IsDigit(c)
  {
    c as int - '0' as int
  }

  /** `{n:02}`: two decimal digits. */
  function Pad2(n: int): (s: string)
    requires 0 <= n < 100
    ensures |s| == 2 && IsDigit(s[0]) && IsDigit(s[1])
    ensures DigitValue(s[0]) * 10 + DigitValue(s[1]) == n
  {
    [Digit(n / 10), Digit(n % 10)]
  }

  /** `"%I:%M %p"`, as `strftime` writes it and as the select box offers it. */
  function Format12(c: Clock12): (s: string)
    ensures |s| == 8
  {
    Pad2(c.hour) + ":" + Pad2(c.minute) + " " + (if c.pm then "PM" else "AM")
  }

  /** `strptime(s, "%I:%M %p")` for the strings of the form the select box
      offers: two-digit hour 01 to 12, colon, two-digit minute 00 to 59,
      space, AM or PM. Anything else is refused. */
  function Parse12(s: string): (r: Option<Clock12>)
    ensures r.Some? ==> |s| == 8
  {
    if |s| != 8 || !IsDigit(s[0]) || !IsDigit(s[1]) || s[2] != ':' || !IsDigit(s[3])
       || !IsDigit(s[4]) || s[5] != ' ' || s[7] != 'M' || (s[6] != 'A' && s[6] != 'P')
    then None
    else
      var h := DigitValue(s[0]) * 10 + DigitValue(s[1]);
      var m := DigitValue(s[3]) * 10 + DigitValue(s[4]);
      if 1 <= h <= 12 && m < 60 then Some(Clock12(h, m, s[6] == 'P')) else None
  }

  /** Parsing what the format writes gives back the reading, so the
      stored "min_time"/"max_time" strings are the strings chosen. */
  lemma ParseFormat12(c: Clock12)
    ensures Parse12(Format12(c)) == Some(c)
  {
    var s := Format12(c);
    assert s[0] == Pad2(c.hour)[0] && s[1] == Pad2(c.hour)[1];
    assert s[3] == Pad2(c.minute)[0] && s[4] == Pad2(c.minute)[1];
  }

  /** Every string the parser accepts is written back unchanged. */
  lemma FormatParse12(s: string)
    requires Parse12(s).Some?
    ensures Format12(Parse12(s).value) == s
  {
    var c := Parse12(s).value;
    var t := Format12(c);
    assert Pad2(c.hour)[0] == s[0] && Pad2(c.hour)[1] == s[1];
    assert Pad2(c.minute)[0] == s[3] && Pad2(c.minute)[1] == s[4];
    assert t[6] == s[6];
    assert t == s;
  }

  /** `"%H:%M"`. */
  function Format24(m: MinuteOfDay): (s: string)
    ensures |s| == 5 && s[2] == ':'
  {
    Pad2(m / 60) + ":" + Pad2(m % 60)
  }

  /** Reading `"%H:%M"` back. */
  function Parse24(s: string): (r: Option<MinuteOfDay>)
    ensures r.Some? ==> |s| == 5
  {
    if |s| != 5 || !IsDigit(s[0]) || !IsDigit(s[1]) || s[2] != ':' || !IsDigit(s[3]) || !IsDigit(s[4])
    then None
    else
      var h := DigitValue(s[0]) * 10 + DigitValue(s[1]);
      var m := DigitValue(s[3]) * 10 + DigitValue(s[4]);
      if h < 24 && m < 60 then Some(h * 60 + m) else None
  }

  /** Different times of day are written differently. */
  lemma ParseFormat24(m: MinuteOfDay)
    ensures Parse24(Format24(m)) == Some(m)
  {
    var s := Format24(m);
    assert s[0] == Pad2(m / 60)[0] && s[1] == Pad2(m / 60)[1];
    assert s[3] == Pad2(m % 60)[0] && s[4] == Pad2(m % 60)[1];
  }
}
