/** `convert_epoch_time` of the Datadog worker: epoch seconds from an
    integer, or from an RFC 3339 style date-time string.

    The conversion is a chain of rewrites of one string: `int()` first;
    then the date's first two `-` become `/`, `T` becomes a space and `Z`
    is dropped; a trailing `+HH:MM` / `-HH:MM` is read as an offset; the
    text is cut at the first `+`, `-` and `.`; what is left is read with
    `strptime('%Y/%m/%d %H:%M:%S')`, shifted by the offset and taken as UTC.
 */
module EpochTime {
  import opened Outcomes
  import opened Text
  import opened Values
  import opened Calendar

  /** `([1-9]|0[1-9]|1[0-2])` matching all of `t`. */
  predicate MonthText(t: string)
  {
    || (|t| == 1 && '1' <= t[0] <= '9')
    || (|t| == 2 && ((t[0] == '0' && '1' <= t[1] <= '9') || (t[0] == '1' && '0' <= t[1] <= '2')))
  }

  /** `([1-9]|0[1-9]|[12][0-9]|3[01])` matching all of `t`. */
  predicate DayText(t: string)
  {
    || (|t| == 1 && '1' <= t[0] <= '9')
    || (|t| == 2 && (
         || (t[0] == '0' && '1' <= t[1] <= '9')
         || ((t[0] == '1' || t[0] == '2') && IsDigit(t[1]))
         || (t[0] == '3' && (t[1] == '0' || t[1] == '1'))))
  }

  /** `-` at `i` followed by a day field of one or two characters. */
  predicate DashDay(s: string, i: nat)
  {
    i < |s| && s[i] == '-' &&
      ((i + 2 <= |s| && DayText(s[i + 1..i + 2])) || (i + 3 <= |s| && DayText(s[i + 1..i + 3])))
  }

  /** `re.match(r'^[0-9]{4}-([1-9]|0[1-9]|1[0-2])-([1-9]|0[1-9]|[12][0-9]|3[01])', s)`:
      a match at the start of `s`, with either width of the month field. */
  predicate DatePrefix(s: string)
  {
    && |s| >= 5 && AllDigits(s[..4]) && s[4] == '-'
    && ((|s| >= 6 && MonthText(s[5..6]) && DashDay(s, 6)) || (|s| >= 7 && MonthText(s[5..7]) && DashDay(s, 7)))
  }

  /** `([0-1][0-9]|2[0-3])`. */
  predicate HourText(t: string)
  {
    |t| == 2 && (((t[0] == '0' || t[0] == '1') && IsDigit(t[1])) || (t[0] == '2' && '0' <= t[1] <= '3'))
  }

  /** `[0-5][0-9]`. */
  predicate MinuteText(t: string)
  {
    |t| == 2 && '0' <= t[0] <= '5' && IsDigit(t[1])
  }

  /** `[+-]HH:MM` at `p`, with no newline before it (`.` does not match one). */
  predicate OffsetAt(s: string, p: nat)
  {
    && p + 6 <= |s|
    && (s[p] == '+' || s[p] == '-')
    && HourText(s[p + 1..p + 3]) && s[p + 3] == ':' && MinuteText(s[p + 4..p + 6])
    && '\n' !in s[..p]
  }

  /** `re.match(r'.*[+-]([0-1][0-9]|2[0-3])\:[0-5][0-9]$', s)`: the offset
      ends the string, or comes just before one final newline. */
  predicate OffsetSuffix(s: string)
  {
    || (|s| >= 6 && OffsetAt(s, |s| - 6))
    || (|s| >= 7 && s[|s| - 1] == '\n' && OffsetAt(s, |s| - 7))
  }

  /** Lines 298-303: the date's first two dashes become slashes (only when
      the string starts with a date), every `T` becomes a space and every `Z`
      is removed. */
  function Normalise(s: string): string
  {
    var v1 := if DatePrefix(s) then Replace(s, '-', "/", 2) else s;
    Replace(Replace(v1, 'T', " ", -1), 'Z', "", -1)
  }

  /** Lines 306-315: the seconds to add for a trailing offset.  The two
      numbers come from the second piece of the split at every `+` and `-`,
      split again at `:`; a missing piece or an unreadable number raises.
      Both are negated when the string holds a `+` anywhere. */
  function OffsetSeconds(v: string): Call<int>
  {
    if !OffsetSuffix(v) then Returns(0)
    else ReadOffset(SplitOn(v, {'+', '-'}), HasChar(v, '+'))
  }

  /** Lines 309-315 on the pieces of the split at `+` and `-`; `plus`
      says whether the string holds a `+`. */
  function ReadOffset(pieces: seq<string>, plus: bool): Call<int>
  {
    if |pieces| < 2 then Raises else ReadHourMinute(SplitOn(pieces[1], {':'}), plus)
  }

  /** Lines 311-315 on the split at `:`: both fields go through `int()`,
      and both are negated when the string holds a `+`. */
  function ReadHourMinute(hm: seq<string>, plus: bool): Call<int>
  {
    if |hm| < 2 || PyInt(hm[0]).None? || PyInt(hm[1]).None? then Raises
    else Returns(OffsetValue(PyInt(hm[0]).value, PyInt(hm[1]).value, plus))
  }

  function OffsetValue(h: int, m: int, plus: bool): int
  {
    var hours := if plus then -h else h;
    var minutes := if plus then -m else m;
    hours * 3600 + minutes * 60
  }

  /** `c in s` for a one-character `c`. */
  predicate HasChar(s: string, c: char) { c in s }

  /** Lines 318-320: everything from the first `+`, then the first `-`,
      then the first `.` is cut off. */
  function WallCut(v: string): string
  {
    SplitOn(SplitOn(SplitOn(v, {'+'})[0], {'-'})[0], {'.'})[0]
  }

  /** The fixed-width layout `YYYY/MM/DD HH:MM:SS`. */
  predicate WallLayout(t: string)
  {
    && |t| == 19
    && t[4] == '/' && t[7] == '/' && t[10] == ' ' && t[13] == ':' && t[16] == ':'
    && AllDigits(t[0..4]) && AllDigits(t[5..7]) && AllDigits(t[8..10])
    && AllDigits(t[11..13]) && AllDigits(t[14..16]) && AllDigits(t[17..19])
  }

  /** `datetime.strptime(t, '%Y/%m/%d %H:%M:%S')` on zero-padded fields;
      the fields must make a valid reading (no February 30th, no second 60). */
  function ParseWallClock(t: string): (r: Option<DateTime>)
    ensures r.Some? ==> Valid(r.value)
  {
    if !WallLayout(t) then None
    else
      var d := DateTime(DigitsValue(t[0..4]), DigitsValue(t[5..7]), DigitsValue(t[8..10]),
                        DigitsValue(t[11..13]), DigitsValue(t[14..16]), DigitsValue(t[17..19]));
      if Valid(d) then Some(d) else None
  }

  /** `dt + timedelta(seconds=off)` followed by `timestamp()`: the sum must
      stay inside `datetime`'s range, or the addition raises. */
  function Shift(t: int, off: int): (r: Call<int>)
    ensures r.Returns? <==> MinEpoch <= t + off <= MaxEpoch
    ensures r.Returns? ==> r.value == t + off
  {
    if MinEpoch <= t + off <= MaxEpoch then Returns(t + off) else Raises
  }

  /** The string path of lines 298-325, reached when `int()` fails. */
  function ConvertText(s: string): Call<int>
  {
    var v := Normalise(s);
    match OffsetSeconds(v)
    case Raises => Raises
    case Returns(off) =>
      match ParseWallClock(WallCut(v))
      case None => Raises
      case Some(d) => Shift(Epoch(d), off)
  }

  /** `convert_epoch_time(val)`: what `int()` accepts is returned as it is
      (a bool as 0 or 1); other strings take the date-time path; any other
      value makes the regular expression match raise. */
  function ConvertEpochTime(v: Value): Call<int>
  {
    match v
    case Int(i) => Returns(i)
    case Bool(b) => Returns(if b then 1 else 0)
    case Str(s) => if PyInt(s).Some? then Returns(PyInt(s).value) else ConvertText(s)
    case _ => Raises
  }

  /** An optional fraction of a second: nothing, or `.` and digits. */
  predicate FractionTail(sub: string)
  {
    sub == [] || (sub[0] == '.' && AllDigits(sub[1..]))
  }

  /** The characters the rewrites and cuts look for. */
  const Marks: set<char> := {'+', '-', '.', 'T', 'Z', '\n'}

  lemma ClockAvoids(d: DateTime)
    requires Valid(d)
    ensures Avoids(ClockPart(d), Marks)
  {
    var h, m, s := Pad2(d.hour), Pad2(d.minute), Pad2(d.second);
    assert ClockPart(d) == h + ":" + m + ":" + s;
  }

  lemma WallTextAvoids(d: DateTime)
    requires Valid(d)
    ensures Avoids(WallText(d), Marks)
  {
    ClockAvoids(d);
    var y, mo, dd := Pad4(d.year), Pad2(d.month), Pad2(d.day);
    assert DatePart(d, '/') == y + "/" + mo + "/" + dd;
    assert Avoids(DatePart(d, '/'), Marks);
  }

  lemma FractionAvoids(sub: string)
    requires FractionTail(sub)
    ensures Avoids(sub, Marks - {'.'})
  {
    if sub != [] {
      assert forall i :: 1 <= i < |sub| ==> sub[i] == sub[1..][i - 1];
    }
  }

  /** The zero-padded layout reads back as the reading it shows. */
  lemma ParseWallText(d: DateTime)
    requires Valid(d)
    ensures ParseWallClock(WallText(d)) == Some(d)
  {
    var t := WallText(d);
    var y, mo, dd := Pad4(d.year), Pad2(d.month), Pad2(d.day);
    var h, mi, s := Pad2(d.hour), Pad2(d.minute), Pad2(d.second);
    assert t == y + "/" + mo + "/" + dd + " " + h + ":" + mi + ":" + s;
    assert t[0..4] == y;
    assert t[5..7] == mo;
    assert t[8..10] == dd;
    assert t[11..13] == h;
    assert t[14..16] == mi;
    assert t[17..19] == s;
  }

  /** ... and it is the only text `strptime` reads as that reading. */
  lemma WallTextOnly(t: string)
    requires ParseWallClock(t).Some?
    ensures t == WallText(ParseWallClock(t).value)
  {
    var d := ParseWallClock(t).value;
    var y, mo, dd := Pad4(d.year), Pad2(d.month), Pad2(d.day);
    var h, mi, s := Pad2(d.hour), Pad2(d.minute), Pad2(d.second);
    DigitsInjective(t[0..4], y);
    DigitsInjective(t[5..7], mo);
    DigitsInjective(t[8..10], dd);
    DigitsInjective(t[11..13], h);
    DigitsInjective(t[14..16], mi);
    DigitsInjective(t[17..19], s);
    var w := WallText(d);
    assert w == y + "/" + mo + "/" + dd + " " + h + ":" + mi + ":" + s;
    assert forall i :: 0 <= i < 19 ==> t[i] == w[i];
  }

  /** A string that starts with an ISO date matches the date pattern. */
  lemma IsoDatePrefix(d: DateTime, rest: string)
    requires Valid(d)
    ensures DatePrefix(DatePart(d, '-') + rest)
  {
    var s := DatePart(d, '-') + rest;
    var y, mo, dd := Pad4(d.year), Pad2(d.month), Pad2(d.day);
    assert s == y + "-" + mo + "-" + dd + rest;
    assert s[..4] == y && s[5..7] == mo && s[8..10] == dd;
    assert MonthText(mo);
    assert DayText(dd);
  }

  /** The first two dashes of an ISO date become slashes; nothing after
      the date is touched. */
  lemma ReplaceDateDashes(d: DateTime, x: string)
    requires Valid(d)
    ensures Replace(DatePart(d, '-') + x, '-', "/", 2) == DatePart(d, '/') + x
  {
    var y, mo, dd := Pad4(d.year), Pad2(d.month), Pad2(d.day);
    var tail := dd + x;
    assert DatePart(d, '-') + x == y + ['-'] + (mo + ['-'] + tail);
    ReplaceFirst(y, mo + ['-'] + tail, '-', "/", 2);
    ReplaceFirst(mo, tail, '-', "/", 1);
    ReplaceNone(tail, '-', "/");
    assert DatePart(d, '/') + x == y + "/" + (mo + "/" + tail);
  }

  lemma ReplaceIsoT(d: DateTime, rest: string)
    requires Valid(d)
    requires Avoids(rest, {'T'})
    ensures Replace(DatePart(d, '/') + "T" + ClockPart(d) + rest, 'T', " ", -1) == WallText(d) + rest
  {
    var c := ClockPart(d);
    ClockAvoids(d);
    var dp := DatePart(d, '/');
    assert Avoids(dp, {'T'}) by {
      WallTextAvoids(d);
      assert forall i :: 0 <= i < |dp| ==> dp[i] == WallText(d)[i];
    }
    assert dp + "T" + c + rest == dp + ['T'] + (c + rest);
    ReplaceFirst(dp, c + rest, 'T', " ", -1);
    ReplaceAbsent(c + rest, 'T', " ", -1);
    assert WallText(d) + rest == dp + " " + (c + rest);
  }

  /** Lines 298-303 on an ISO date-time followed by `rest`: the date gets
      slashes, the `T` a space, and only `rest` can still lose a `Z`. */
  lemma NormaliseIso(d: DateTime, rest: string)
    requires Valid(d)
    requires Avoids(rest, {'T'})
    ensures Normalise(IsoPrefix(d) + rest) == WallText(d) + Replace(rest, 'Z', "", -1)
  {
    var c := ClockPart(d);
    var s := IsoPrefix(d) + rest;
    assert s == DatePart(d, '-') + ("T" + c + rest);
    IsoDatePrefix(d, "T" + c + rest);
    ReplaceDateDashes(d, "T" + c + rest);
    assert DatePart(d, '/') + ("T" + c + rest) == DatePart(d, '/') + "T" + c + rest;
    ReplaceIsoT(d, rest);
    WallTextAvoids(d);
    ReplaceSkip(WallText(d), rest, 'Z', "", -1);
  }

  /** Without a sign there is no offset to read. */
  lemma NoSignNoOffset(v: string)
    requires Avoids(v, {'+', '-'})
    ensures !OffsetSuffix(v)
  {
    if |v| >= 6 {
      assert v[|v| - 6] !in {'+', '-'};
    }
    if |v| >= 7 {
      assert v[|v| - 7] !in {'+', '-'};
    }
  }

  /** For a wall clock with an optional fraction, lines 306-320 find no
      offset and cut the fraction off. */
  lemma WallCutPlain(d: DateTime, sub: string)
    requires Valid(d) && FractionTail(sub)
    ensures OffsetSeconds(WallText(d) + sub) == Returns(0)
    ensures WallCut(WallText(d) + sub) == WallText(d)
  {
    var w := WallText(d);
    var v := w + sub;
    WallTextAvoids(d);
    FractionAvoids(sub);
    assert Avoids(v, {'+', '-'});
    NoSignNoOffset(v);
    SplitNoSep(v, {'+'});
    SplitNoSep(v, {'-'});
    if sub == [] {
      assert v == w;
      SplitNoSep(w, {'.'});
    } else {
      assert v == w + ['.'] + sub[1..];
      SplitAtFirst(w, '.', sub[1..], {'.'});
    }
  }

  /** `int()` refuses an ISO date-time: its `T` is not part of a number. */
  lemma IsoNotInteger(d: DateTime, rest: string)
    requires Valid(d)
    ensures PyInt(IsoPrefix(d) + rest) == None
  {
    var s := IsoPrefix(d) + rest;
    assert s[10] == 'T';
    PyIntRejects(s, 10);
  }

  /** The string path once its two readings are known. */
  lemma ConvertTextFrom(s: string, off: int, d: DateTime)
    requires PyInt(s) == None
    requires OffsetSeconds(Normalise(s)) == Returns(off)
    requires ParseWallClock(WallCut(Normalise(s))) == Some(d)
    ensures ConvertEpochTime(Str(s)) == Shift(Epoch(d), off)
  {
  }

  /** Lines 298-303 on `YYYY-MM-DDTHH:MM:SS[.f*]Z`. */
  lemma NormaliseIsoZulu(d: DateTime, sub: string)
    requires Valid(d) && FractionTail(sub)
    ensures Normalise(IsoPrefix(d) + sub + "Z") == WallText(d) + sub
  {
    var rest := sub + "Z";
    assert IsoPrefix(d) + sub + "Z" == IsoPrefix(d) + rest;
    FractionAvoids(sub);
    assert Avoids(rest, {'T'});
    NormaliseIso(d, rest);
    assert rest == sub + ['Z'] + [];
    ReplaceFirst(sub, [], 'Z', "", -1);
  }

  /** `YYYY-MM-DDTHH:MM:SS[.f*]Z` converts to the UTC epoch of its
      wall-clock fields; the fraction is dropped. */
  lemma IsoRoundTrip(d: DateTime, sub: string)
    requires Valid(d) && FractionTail(sub)
    ensures ConvertEpochTime(Str(IsoPrefix(d) + sub + "Z")) == Returns(Epoch(d))
  {
    var s := IsoPrefix(d) + sub + "Z";
    assert s == IsoPrefix(d) + (sub + "Z");
    IsoNotInteger(d, sub + "Z");
    NormaliseIsoZulu(d, sub);
    WallCutPlain(d, sub);
    ParseWallText(d);
    ConvertTextFrom(s, 0, d);
    EpochInRange(d);
  }

  /** The window end the worker formats with `strftime` (lines 467-472)
      converts back to the timestamp of the reading it was made from. */
  lemma StrftimeRoundTrip(d: DateTime)
    requires Valid(d)
    ensures ConvertEpochTime(Str(IsoText(d))) == Returns(Epoch(d))
  {
    assert IsoText(d) == IsoPrefix(d) + ".000" + "Z";
    assert AllDigits(".000"[1..]);
    IsoRoundTrip(d, ".000");
  }

  /** A numeric UTC offset `+HH:MM` or `-HH:MM`. */
  function OffsetText(sign: char, oh: nat, om: nat): (s: string)
    requires oh < 24 && om < 60
    ensures |s| == 6
  {
    [sign] + Pad2(oh) + ":" + Pad2(om)
  }

  /** The hour and minute fields of the offset read back as numbers. */
  lemma OffsetFields(oh: nat, om: nat)
    requires oh < 24 && om < 60
    ensures SplitOn(Pad2(oh) + ":" + Pad2(om), {':'}) == [Pad2(oh), Pad2(om)]
    ensures SplitOn(Pad2(oh) + ":" + Pad2(om), {'+', '-'}) == [Pad2(oh) + ":" + Pad2(om)]
    ensures PyInt(Pad2(oh)) == Some(oh) && PyInt(Pad2(om)) == Some(om)
  {
    var h, m := Pad2(oh), Pad2(om);
    SplitAtFirst(h, ':', m, {':'});
    SplitNoSep(m, {':'});
    assert h + ":" + m == h + [':'] + m;
    SplitNoSep(h + ":" + m, {'+', '-'});
    PyIntDigits(h);
    PyIntDigits(m);
  }

  /** Lines 309-315 on the offset's own piece. */
  lemma ReadOffsetFields(w: string, oh: nat, om: nat, plus: bool)
    requires oh < 24 && om < 60
    ensures ReadOffset([w, Pad2(oh) + ":" + Pad2(om)], plus)
      == Returns(if plus then -(oh * 3600 + om * 60) else oh * 3600 + om * 60)
  {
    OffsetFields(oh, om);
    var pieces := [w, Pad2(oh) + ":" + Pad2(om)];
    var hm := SplitOn(pieces[1], {':'});
    assert hm == [Pad2(oh), Pad2(om)];
    assert ReadHourMinute(hm, plus) == Returns(OffsetValue(oh, om, plus));
    assert ReadOffset(pieces, plus) == ReadHourMinute(hm, plus);
    OffsetValueSign(oh, om, plus);
  }

  lemma OffsetValueSign(h: int, m: int, plus: bool)
    ensures OffsetValue(h, m, plus) == if plus then -(h * 3600 + m * 60) else h * 3600 + m * 60
  {
  }

  lemma OffsetFound(w: string, sign: char, oh: nat, om: nat)
    requires Avoids(w, {'\n'})
    requires (sign == '+' || sign == '-') && oh < 24 && om < 60
    ensures OffsetSuffix(w + OffsetText(sign, oh, om))
  {
    var v := w + OffsetText(sign, oh, om);
    var p := |w|;
    assert v == w + [sign] + Pad2(oh) + ":" + Pad2(om);
    assert v[p] == sign && v[p + 1..p + 3] == Pad2(oh) && v[p + 3] == ':' && v[p + 4..p + 6] == Pad2(om);
    assert v[..p] == w;
    assert HourText(Pad2(oh)) && MinuteText(Pad2(om));
    assert OffsetAt(v, |v| - 6);
  }

  lemma PlusOnlyInSign(w: string, sign: char, oh: nat, om: nat)
    requires Avoids(w, {'+'})
    requires oh < 24 && om < 60
    ensures HasChar(w + OffsetText(sign, oh, om), '+') <==> sign == '+'
  {
    var v := w + OffsetText(sign, oh, om);
    var p := |w|;
    assert v[p] == sign;
    assert forall i :: 0 <= i < |v| && i != p ==> v[i] != '+';
  }

  /** The pieces lines 306-311 split a wall clock and an offset into. */
  lemma OffsetPieces(w: string, sign: char, oh: nat, om: nat)
    requires Avoids(w, {'+', '-'})
    requires (sign == '+' || sign == '-') && oh < 24 && om < 60
    ensures SplitOn(w + OffsetText(sign, oh, om), {'+', '-'}) == [w, Pad2(oh) + ":" + Pad2(om)]
  {
    var hm := Pad2(oh) + ":" + Pad2(om);
    assert w + OffsetText(sign, oh, om) == w + [sign] + hm;
    SplitAtFirst(w, sign, hm, {'+', '-'});
    OffsetFields(oh, om);
  }

  /** Lines 306-315 on a wall clock followed by an offset: the offset is
      found, and its hours and minutes are subtracted for `+` and added for
      `-`. */
  lemma OffsetRead(w: string, sign: char, oh: nat, om: nat)
    requires Avoids(w, {'+', '-', '\n'})
    requires (sign == '+' || sign == '-') && oh < 24 && om < 60
    ensures sign == '+' ==> OffsetSeconds(w + OffsetText(sign, oh, om)) == Returns(-(oh * 3600 + om * 60))
    ensures sign == '-' ==> OffsetSeconds(w + OffsetText(sign, oh, om)) == Returns(oh * 3600 + om * 60)
  {
    var hm := Pad2(oh) + ":" + Pad2(om);
    var v := w + OffsetText(sign, oh, om);
    OffsetFound(w, sign, oh, om);
    PlusOnlyInSign(w, sign, oh, om);
    OffsetPieces(w, sign, oh, om);
    ReadOffsetFields(w, oh, om, sign == '+');
  }

  /** Lines 318-320 on a wall clock, an optional fraction and an offset:
      the offset and the fraction are cut off. */
  lemma WallCutOffset(d: DateTime, sub: string, sign: char, oh: nat, om: nat)
    requires Valid(d) && FractionTail(sub)
    requires (sign == '+' || sign == '-') && oh < 24 && om < 60
    ensures WallCut(WallText(d) + sub + OffsetText(sign, oh, om)) == WallText(d)
  {
    var w := WallText(d) + sub;
    var hm := Pad2(oh) + ":" + Pad2(om);
    var v := w + OffsetText(sign, oh, om);
    assert v == w + [sign] + hm;
    WallTextAvoids(d);
    FractionAvoids(sub);
    assert Avoids(w, Marks - {'.'});
    WallCutPlain(d, sub);
    SplitNoSep(w, {'+'});
    SplitNoSep(w, {'-'});
    if sign == '+' {
      SplitAtFirst(w, '+', hm, {'+'});
    } else {
      assert forall i :: 0 <= i < |hm| ==> hm[i] != '+';
      SplitNoSep(v, {'+'});
      SplitAtFirst(w, '-', hm, {'-'});
    }
  }

  /** Lines 298-303 on a date-time with an offset: nothing after the date
      is rewritten. */
  lemma NormaliseIsoOffset(d: DateTime, sub: string, sign: char, oh: nat, om: nat)
    requires Valid(d) && FractionTail(sub)
    requires (sign == '+' || sign == '-') && oh < 24 && om < 60
    ensures Normalise(IsoPrefix(d) + sub + OffsetText(sign, oh, om)) == WallText(d) + sub + OffsetText(sign, oh, om)
  {
    var o := OffsetText(sign, oh, om);
    FractionAvoids(sub);
    OffsetTextAvoids(sign, oh, om);
    assert Avoids(sub + o, {'T', 'Z'});
    assert IsoPrefix(d) + sub + o == IsoPrefix(d) + (sub + o);
    NormaliseIsoClean(d, sub + o);
    assert WallText(d) + (sub + o) == WallText(d) + sub + o;
  }

  /** The offset text has neither a `T` nor a `Z` in it. */
  lemma OffsetTextAvoids(sign: char, oh: nat, om: nat)
    requires (sign == '+' || sign == '-') && oh < 24 && om < 60
    ensures Avoids(OffsetText(sign, oh, om), {'T', 'Z'})
  {
  }

  /** An ISO prefix followed by text without `T` or `Z` is rewritten at
      the prefix only. */
  lemma NormaliseIsoClean(d: DateTime, rest: string)
    requires Valid(d) && Avoids(rest, {'T', 'Z'})
    ensures Normalise(IsoPrefix(d) + rest) == WallText(d) + rest
  {
    NormaliseIso(d, rest);
    ReplaceAbsent(rest, 'Z', "", -1);
  }

  /** `YYYY-MM-DDTHH:MM:SS[.f*]+HH:MM` is that many hours and minutes
      before the same wall clock in UTC, and `-HH:MM` that many after:
      the offset is subtracted, or added, and the sum must stay in range. */
  lemma OffsetRoundTrip(d: DateTime, sub: string, sign: char, oh: nat, om: nat)
    requires Valid(d) && FractionTail(sub)
    requires (sign == '+' || sign == '-') && oh < 24 && om < 60
    ensures sign == '+' ==>
      ConvertEpochTime(Str(IsoPrefix(d) + sub + OffsetText(sign, oh, om))) == Shift(Epoch(d), -(oh * 3600 + om * 60))
    ensures sign == '-' ==>
      ConvertEpochTime(Str(IsoPrefix(d) + sub + OffsetText(sign, oh, om))) == Shift(Epoch(d), oh * 3600 + om * 60)
  {
    var s := IsoPrefix(d) + sub + OffsetText(sign, oh, om);
    IsoNotInteger(d, sub + OffsetText(sign, oh, om));
    assert s == IsoPrefix(d) + (sub + OffsetText(sign, oh, om));
    OffsetNormalised(d, sub, sign, oh, om);
    WallNormalised(d, sub, sign, oh, om);
    var off := if sign == '+' then -(oh * 3600 + om * 60) else oh * 3600 + om * 60;
    ConvertTextFrom(s, off, d);
  }

  /** The offset read from the normalised offset text. */
  lemma OffsetNormalised(d: DateTime, sub: string, sign: char, oh: nat, om: nat)
    requires Valid(d) && FractionTail(sub)
    requires (sign == '+' || sign == '-') && oh < 24 && om < 60
    ensures OffsetSeconds(Normalise(IsoPrefix(d) + sub + OffsetText(sign, oh, om)))
      == Returns(if sign == '+' then -(oh * 3600 + om * 60) else oh * 3600 + om * 60)
  {
    var w := WallText(d) + sub;
    NormaliseIsoOffset(d, sub, sign, oh, om);
    WallTextAvoids(d);
    FractionAvoids(sub);
    assert Avoids(w, {'+', '-', '\n'});
    OffsetRead(w, sign, oh, om);
  }

  /** The wall clock read from the normalised offset text. */
  lemma WallNormalised(d: DateTime, sub: string, sign: char, oh: nat, om: nat)
    requires Valid(d) && FractionTail(sub)
    requires (sign == '+' || sign == '-') && oh < 24 && om < 60
    ensures ParseWallClock(WallCut(Normalise(IsoPrefix(d) + sub + OffsetText(sign, oh, om)))) == Some(d)
  {
    NormaliseIsoOffset(d, sub, sign, oh, om);
    WallCutOffset(d, sub, sign, oh, om);
    ParseWallText(d);
  }

  /** Lines 289-291: an integer, and the decimal text of one, come back as
      that integer. */
  lemma IntegersPassThrough(n: int)
    ensures ConvertEpochTime(Int(n)) == Returns(n)
    ensures ConvertEpochTime(Str(Show(n))) == Returns(n)
  {
    PyIntShow(n);
  }

  /** A string that is not an integer converts only through a zero-padded
      wall clock: after the rewrites and cuts what is left is exactly the
      `%Y/%m/%d %H:%M:%S` text of a valid reading, and the result is its
      timestamp shifted by the offset, inside `datetime`'s range.  Text
      that does not parse therefore raises. */
  lemma ConvertTextSound(s: string, t: int)
    requires PyInt(s).None? && ConvertEpochTime(Str(s)) == Returns(t)
    ensures ParseWallClock(WallCut(Normalise(s))).Some?
    ensures WallCut(Normalise(s)) == WallText(ParseWallClock(WallCut(Normalise(s))).value)
    ensures OffsetSeconds(Normalise(s)).Returns?
    ensures t == Epoch(ParseWallClock(WallCut(Normalise(s))).value) + OffsetSeconds(Normalise(s)).value
    ensures MinEpoch <= t <= MaxEpoch
  {
    WallTextOnly(WallCut(Normalise(s)));
  }
}
