/**
 * Seconds shown and edited as hours, minutes and seconds: the split done when
 * a task is opened for editing, the sum taken when it is saved, the clamping
 * of the three input fields and the "HH:MM:SS" display.
 */
module TimeEdit {
  import opened Options
  import opened JsNumbers

  /** The three text fields of the edit dialog. */
  datatype TimeFields = TimeFields(hours: string, minutes: string, seconds: string)

  /** The fields of a dialog that has just been opened or reset. */
  const ZeroFields := TimeFields("0", "0", "0")

  /**
   * Hours, minutes and seconds of an elapsed time as the edit dialog computes
   * them: Math.floor(e / 3600), Math.floor((e % 3600) / 60) and e % 60.
   */
  function Split(e: int): (hms: (int, int, int))
    ensures e >= 0 ==> hms.0 >= 0 && 0 <= hms.1 < 60 && 0 <= hms.2 < 60
    ensures e >= 0 ==> hms.0 * 3600 + hms.1 * 60 + hms.2 == e
  {
    (FloorDiv(e, 3600), FloorDiv(JsRem(e, 3600), 60), JsRem(e, 60))
  }

  /** The dialog fields filled in from a task's elapsed time (toString of each part). */
  function EditFields(e: int): TimeFields {
    var hms := Split(e);
    TimeFields(IntToString(hms.0), IntToString(hms.1), IntToString(hms.2))
  }

  /**
   * The elapsed time saved from the fields: parseInt(hours) * 3600 +
   * parseInt(minutes) * 60 + parseInt(seconds); None when one of them is NaN.
   */
  function Compose(f: TimeFields): (r: Option<int>)
    ensures r.None? <==> ParseInt(f.hours).None? || ParseInt(f.minutes).None? || ParseInt(f.seconds).None?
  {
    Combine(ParseInt(f.hours), ParseInt(f.minutes), ParseInt(f.seconds))
  }

  function Combine(h: Option<int>, m: Option<int>, s: Option<int>): Option<int> {
    if h.Some? && m.Some? && s.Some? then Some(h.value * 3600 + m.value * 60 + s.value) else None
  }

  /** Opening a task for editing and saving it unchanged gives back its elapsed time. */
  lemma EditSaveRoundTrip(e: int)
    requires e >= 0
    ensures Compose(EditFields(e)) == Some(e)
  {
    var hms := Split(e);
    var f := EditFields(e);
    assert f.hours == IntToString(hms.0) && f.minutes == IntToString(hms.1) && f.seconds == IntToString(hms.2);
    ParseIntToString(hms.0);
    ParseIntToString(hms.1);
    ParseIntToString(hms.2);
    ComposeParts(f, hms.0, hms.1, hms.2, e);
  }

  lemma ComposeParts(f: TimeFields, h: int, m: int, s: int, total: int)
    requires ParseInt(f.hours) == Some(h) && ParseInt(f.minutes) == Some(m) && ParseInt(f.seconds) == Some(s)
    requires h * 3600 + m * 60 + s == total
    ensures Compose(f) == Some(total)
  {
  }

  /** parseInt(s) || 0: NaN (and 0) become 0. */
  function ParsedOrZero(s: string): int {
    match ParseInt(s)
    case None => 0
    case Some(v) => v
  }

  /**
   * validateTimeInput: hours become Math.max(0, parseInt(hours) || 0) and
   * minutes and seconds are further capped at 59, each written back with toString.
   */
  function Validate(f: TimeFields): (r: TimeFields)
    ensures ParseInt(r.hours) == Some(Max(0, ParsedOrZero(f.hours)))
    ensures ParseInt(r.minutes) == Some(Min(59, Max(0, ParsedOrZero(f.minutes))))
    ensures ParseInt(r.seconds) == Some(Min(59, Max(0, ParsedOrZero(f.seconds))))
  {
    var h := Max(0, ParsedOrZero(f.hours));
    var m := Min(59, Max(0, ParsedOrZero(f.minutes)));
    var s := Min(59, Max(0, ParsedOrZero(f.seconds)));
    ParseIntToString(h);
    ParseIntToString(m);
    ParseIntToString(s);
    TimeFields(IntToString(h), IntToString(m), IntToString(s))
  }

  function Max(a: int, b: int): int { if a < b then b else a }
  function Min(a: int, b: int): int { if a < b then a else b }

  /** After validation the fields are in range, so saving them never yields NaN. */
  lemma ValidatedInRange(f: TimeFields)
    ensures var r := Validate(f);
      && ParseInt(r.hours).Some? && ParseInt(r.hours).value >= 0
      && ParseInt(r.minutes).Some? && 0 <= ParseInt(r.minutes).value <= 59
      && ParseInt(r.seconds).Some? && 0 <= ParseInt(r.seconds).value <= 59
      && Compose(r).Some? && Compose(r).value >= 0
  {
  }

  /** Validating twice changes nothing more than validating once. */
  lemma {:induction false} ValidateIdempotent(f: TimeFields)
    ensures Validate(Validate(f)) == Validate(f)
  {
    var r := Validate(f);
    assert ParsedOrZero(r.hours) == Max(0, ParsedOrZero(f.hours));
    assert ParsedOrZero(r.minutes) == Min(59, Max(0, ParsedOrZero(f.minutes)));
    assert ParsedOrZero(r.seconds) == Min(59, Max(0, ParsedOrZero(f.seconds)));
  }

  /** The fields filled in from a non-negative elapsed time already pass validation unchanged. */
  lemma {:induction false} EditFieldsAreValid(e: int)
    requires e >= 0
    ensures Validate(EditFields(e)) == EditFields(e)
  {
    var hms := Split(e);
    var f := EditFields(e);
    ReadBackOrZero(hms.0);
    ReadBackOrZero(hms.1);
    ReadBackOrZero(hms.2);
    assert Max(0, ParsedOrZero(f.hours)) == hms.0;
    assert Min(59, Max(0, ParsedOrZero(f.minutes))) == hms.1;
    assert Min(59, Max(0, ParsedOrZero(f.seconds))) == hms.2;
  }

  /** Validated fields are exactly the ones editTask writes for their total. */
  lemma ValidatedRoundTrip(f: TimeFields)
    ensures Compose(Validate(f)).Some? && Compose(Validate(f)).value >= 0
    ensures EditFields(Compose(Validate(f)).value) == Validate(f)
  {
    var h, m, s := Max(0, ParsedOrZero(f.hours)), Min(59, Max(0, ParsedOrZero(f.minutes))), Min(59, Max(0, ParsedOrZero(f.seconds)));
    var e := h * 3600 + m * 60 + s;
    ComposeOfParts(Validate(f), h, m, s, e);
    EditFieldsOfParts(h, m, s, e);
  }

  lemma ComposeOfParts(f: TimeFields, h: int, m: int, s: int, e: int)
    requires f == TimeFields(IntToString(h), IntToString(m), IntToString(s))
    requires e == h * 3600 + m * 60 + s
    ensures Compose(f) == Some(e)
  {
    ParseIntToString(h);
    ParseIntToString(m);
    ParseIntToString(s);
    ComposeParts(f, h, m, s, e);
  }

  lemma EditFieldsOfParts(h: int, m: int, s: int, e: int)
    requires h >= 0 && 0 <= m < 60 && 0 <= s < 60
    requires e == h * 3600 + m * 60 + s
    ensures EditFields(e) == TimeFields(IntToString(h), IntToString(m), IntToString(s))
  {
    SplitOfParts(h, m, s);
  }

  /** Hours, minutes under 60 and seconds under 60 are what Split gives back for their total. */
  lemma SplitOfParts(h: int, m: int, s: int)
    requires h >= 0 && 0 <= m < 60 && 0 <= s < 60
    ensures Split(h * 3600 + m * 60 + s) == (h, m, s)
  {
    var r := m * 60 + s;
    var e := h * 3600 + r;
    DivOfParts(h, r, 3600);
    DivOfParts(m, s, 60);
    assert e == (h * 60 + m) * 60 + s;
    DivOfParts(h * 60 + m, s, 60);
  }

  /** Euclidean division recovers the quotient and the remainder it was built from. */
  lemma DivOfParts(q: int, r: int, b: int)
    requires b > 0 && 0 <= r < b
    ensures (q * b + r) / b == q && (q * b + r) % b == r
  {
    var x := q * b + r;
    var d := x / b;
    assert x == d * b + x % b;
    if d < q {
      MulAtLeast(q - d, b);
    } else if d > q {
      MulAtLeast(d - q, b);
    }
  }

  lemma MulAtLeast(a: int, b: int)
    requires a >= 1 && b > 0
    ensures a * b >= b
  {
  }

  lemma ReadBackOrZero(v: int)
    ensures ParsedOrZero(IntToString(v)) == v
  {
    ParseIntToString(v);
  }

  /** padStart(2, '0'). */
  function Pad2(s: string): (r: string)
    ensures |s| >= 2 ==> r == s
    ensures |s| < 2 ==> |r| == 2 && r[2 - |s|..] == s && forall i :: 0 <= i < 2 - |s| ==> r[i] == '0'
  {
    if |s| >= 2 then s else if |s| == 1 then "0" + s else "00"
  }

  /**
   * formatTime: "HH:MM:SS" of the absolute value, each part padded to two
   * digits (hours may run longer), "- " in front of a negative value;
   * "00:00:00" when the argument is not of type number (None: null or
   * undefined; NaN is of type number and is not modelled).
   */
  function FormatTime(seconds: Option<int>): (r: string)
    ensures |r| >= 8
    ensures r[..2] == "- " <==> seconds.Some? && seconds.value < 0
  {
    match seconds
    case None => assert "00:00:00"[..2][0] == '0'; "00:00:00"
    case Some(x) =>
      if x < 0 then
        var c := Clock(-x);
        assert ("- " + c)[..2] == "- ";
        "- " + c
      else
        var c := Clock(x);
        assert c[..2][0] == c[0];
        c
  }

  /** The unsigned "HH:MM:SS" of a non-negative number of seconds; it starts with a digit. */
  function Clock(a: nat): (r: string)
    ensures |r| >= 8 && '0' <= r[0] <= '9'
  {
    var h := NatToString(a / 3600);
    assert IsDigitIn(h[0], 10);
    var hp := Pad2(h);
    assert '0' <= hp[0] <= '9';
    hp + ":" + Pad2(NatToString((a % 3600) / 60)) + ":" + Pad2(NatToString(a % 60))
  }

  /** Reads a displayed duration back: an optional "- " in front of ParseUnsignedClock. */
  function ParseClock(s: string): (r: Option<int>)
    ensures r.Some? && r.value < 0 ==> |s| >= 2 && s[..2] == "- "
  {
    if |s| >= 2 && s[0] == '-' && s[1] == ' ' then
      match ParseUnsignedClock(s[2..])
      case None => None
      case Some(v) => Some(-v)
    else ParseUnsignedClock(s)
  }

  /** Hours, minutes and seconds separated by ':', minutes and seconds two digits below 60. */
  function ParseUnsignedClock(body: string): (r: Option<int>)
    ensures r.Some? ==> r.value >= 0
  {
    if |body| < 8 || body[|body| - 6] != ':' || body[|body| - 3] != ':' then None
    else ClockFields(body[..|body| - 6], body[|body| - 5..|body| - 3], body[|body| - 2..])
  }

  function ClockFields(hh: string, mm: string, ss: string): (r: Option<int>)
    ensures r.Some? ==> r.value >= 0
  {
    if AllDigitsIn(hh, 10) && AllDigitsIn(mm, 10) && AllDigitsIn(ss, 10)
       && ValueIn(mm, 10) < 60 && ValueIn(ss, 10) < 60
    then Some(ValueIn(hh, 10) * 3600 + ValueIn(mm, 10) * 60 + ValueIn(ss, 10))
    else None
  }

  /** The padded decimal form of n keeps its digits and its value. */
  lemma {:induction false} PaddedDigits(n: nat)
    ensures var p := Pad2(NatToString(n));
      |p| >= 2 && AllDigitsIn(p, 10) && ValueIn(p, 10) == n
      && (n < 100 ==> |p| == 2)
  {
    var d := NatToString(n);
    if |d| < 2 {
      var p := "0" + d;
      assert p == [p[0]] + d;
      LeadingZero(d);
    }
  }

  lemma {:induction false} LeadingZero(d: string)
    ensures ValueIn("0" + d, 10) == ValueIn(d, 10)
    decreases |d|
  {
    if d != [] {
      var z := "0" + d;
      assert z[..|z| - 1] == "0" + d[..|d| - 1];
      LeadingZero(d[..|d| - 1]);
    } else {
      assert ("0" + d)[..0] == [];
    }
  }

  /** What formatTime displays reads back as the number it was given. */
  lemma FormatTimeRoundTrip(x: int)
    ensures ParseClock(FormatTime(Some(x))) == Some(x)
  {
    if x < 0 {
      NegativeRoundTrip(-x);
    } else {
      ClockReadsBack(x);
      ParseClockUnsigned(Clock(x));
    }
  }

  lemma NegativeRoundTrip(a: nat)
    requires a > 0
    ensures ParseClock(FormatTime(Some(-(a as int)))) == Some(-(a as int))
  {
    var c := Clock(a);
    FormatNegative(a);
    ClockReadsBack(a);
    ParseSigned(c, a);
  }

  lemma FormatNegative(a: nat)
    requires a > 0
    ensures FormatTime(Some(-(a as int))) == "- " + Clock(a)
  {
  }

  lemma ParseSigned(t: string, v: int)
    requires ParseUnsignedClock(t) == Some(v)
    ensures ParseClock("- " + t) == Some(-v)
  {
    assert ("- " + t)[2..] == t;
  }

  lemma ParseClockUnsigned(t: string)
    requires t != [] && IsDigitIn(t[0], 10)
    ensures ParseClock(t) == ParseUnsignedClock(t)
  {
  }

  lemma ClockReadsBack(a: nat)
    ensures ParseUnsignedClock(Clock(a)) == Some(a)
    ensures IsDigitIn(Clock(a)[0], 10)
  {
    SplitSeconds(a);
    PartsReadBack(a / 3600, (a % 3600) / 60, a % 60, a);
  }

  /** The padded parts of a split duration, joined with ':', read back as that duration. */
  lemma PartsReadBack(h: nat, m: nat, s: nat, a: nat)
    requires m < 60 && s < 60 && h * 3600 + m * 60 + s == a
    ensures ParseUnsignedClock(Pad2(NatToString(h)) + ":" + Pad2(NatToString(m)) + ":" + Pad2(NatToString(s))) == Some(a)
    ensures IsDigitIn((Pad2(NatToString(h)) + ":" + Pad2(NatToString(m)) + ":" + Pad2(NatToString(s)))[0], 10)
  {
    PaddedDigits(h);
    PaddedDigits(m);
    PaddedDigits(s);
    DigitPartsReadBack(Pad2(NatToString(h)), Pad2(NatToString(m)), Pad2(NatToString(s)), a);
  }

  lemma DigitPartsReadBack(hp: string, mp: string, sp: string, a: int)
    requires |hp| >= 2 && |mp| == 2 && |sp| == 2
    requires AllDigitsIn(hp, 10) && AllDigitsIn(mp, 10) && AllDigitsIn(sp, 10)
    requires ValueIn(mp, 10) < 60 && ValueIn(sp, 10) < 60
    requires ValueIn(hp, 10) * 3600 + ValueIn(mp, 10) * 60 + ValueIn(sp, 10) == a
    ensures ParseUnsignedClock(hp + ":" + mp + ":" + sp) == Some(a)
    ensures IsDigitIn((hp + ":" + mp + ":" + sp)[0], 10)
  {
    ClockSlices(hp, mp, sp);
    ClockFieldsValue(hp, mp, sp, a);
    assert IsDigitIn(hp[0], 10);
  }

  lemma ClockFieldsValue(hp: string, mp: string, sp: string, a: int)
    requires AllDigitsIn(hp, 10) && AllDigitsIn(mp, 10) && AllDigitsIn(sp, 10)
    requires ValueIn(mp, 10) < 60 && ValueIn(sp, 10) < 60
    requires ValueIn(hp, 10) * 3600 + ValueIn(mp, 10) * 60 + ValueIn(sp, 10) == a
    ensures ClockFields(hp, mp, sp) == Some(a)
  {
  }

  lemma ClockSlices(hp: string, mp: string, sp: string)
    requires |hp| >= 2 && |mp| == 2 && |sp| == 2
    ensures ParseUnsignedClock(hp + ":" + mp + ":" + sp) == ClockFields(hp, mp, sp)
    ensures (hp + ":" + mp + ":" + sp)[0] == hp[0]
  {
    var time := hp + ":" + mp + ":" + sp;
    var n := |time|;
    assert time[..n - 6] == hp;
    assert time[n - 5..n - 3] == mp;
    assert time[n - 2..] == sp;
  }

  lemma SplitSeconds(a: nat)
    ensures (a / 3600) * 3600 + ((a % 3600) / 60) * 60 + a % 60 == a
    ensures (a % 3600) / 60 < 60 && a % 60 < 60
  {
    var q, r := a / 3600, a % 3600;
    var p, t := r / 60, r % 60;
    assert a == q * 3600 + r && 0 <= r < 3600;
    assert r == p * 60 + t && 0 <= t < 60;
    assert a == (q * 60 + p) * 60 + t;
    assert a % 60 == t;
  }
}
