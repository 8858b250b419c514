/** Time-span definitions: the rules engine's parser, the policy's parser and the config validator. */
module TimeSpan {
  import opened Text
  import opened Windows

  datatype Zone = Zone(id: int)

  datatype Wall = Wall(weekday: Weekday, minute: Minute)

  /** The time-zone database, and what the clock on the wall shows in a zone at an instant. */
  datatype Calendar = Calendar(load: string -> Option<Zone>, wall: (Zone, int) -> Wall)

  datatype Span = Span(start: Minute, end: Minute, weekdays: set<nat>, zone: Zone)

  /** Weekdays are tested against the current day, also after midnight; no weekdays means every day. */
  predicate Covers(span: Span, at: Wall) {
    (span.weekdays == {} || at.weekday in span.weekdays) && InWindow(span.start, span.end, at.minute)
  }

  function DayBefore(d: Weekday): Weekday {
    (d + 6) % 7
  }

  /** What one may expect of an overnight window: that the night which begins on a listed day runs on past midnight. */
  predicate CoversNights(span: Span, at: Wall) {
    || (at.minute >= span.start && (span.weekdays == {} || at.weekday in span.weekdays))
    || (at.minute <= span.end && (span.weekdays == {} || DayBefore(at.weekday) in span.weekdays))
  }

  ghost predicate NightsRunOn(span: Span) {
    forall at: Wall :: Covers(span, at) <==> CoversNights(span, at)
  }

  /**
   * The hours after midnight are tested against their own weekday, so nights run on exactly when every day is listed.
   */
  lemma NightsRunOnIff(span: Span)
    requires CrossesMidnight(span.start, span.end) && forall d | d in span.weekdays :: d < 7
    ensures NightsRunOn(span) <==> span.weekdays == {} || forall d: Weekday :: d in span.weekdays
  {
    if NightsRunOn(span) && span.weekdays != {} {
      var d :| d in span.weekdays;
      forall e: Weekday ensures e in span.weekdays {
        DaysFollow(span, d, DaysAfter(d, e));
        assert (d + DaysAfter(d, e)) % 7 == e;
      }
    }
  }

  lemma {:induction false} DaysFollow(span: Span, d: Weekday, n: nat)
    requires CrossesMidnight(span.start, span.end) && NightsRunOn(span) && d in span.weekdays
    ensures (d + n) % 7 in span.weekdays
  {
    if n > 0 {
      DaysFollow(span, d, n - 1);
      var morning := Wall((d + n) % 7, span.end);
      assert DayBefore(morning.weekday) == (d + n - 1) % 7;
      assert CoversNights(span, morning) && Covers(span, morning);
    }
  }

  // --- Clock times and weekday names ------------------------------------------------------------

  predicate IsDigit(s: string, i: nat) {
    i < |s| && '0' <= s[i] <= '9'
  }

  function DigitAt(s: string, i: nat): (d: nat)
    requires IsDigit(s, i)
    ensures d < 10
  {
    (s[i] - '0') as nat
  }

  /** `time.Parse("15:04", s)`: an hour of one or two digits, a colon, a minute of two. */
  function ParseClock(s: string): Option<Minute> {
    if !IsDigit(s, 0) then None
    else
      var long := IsDigit(s, 1);
      var hour := if long then DigitAt(s, 0) * 10 + DigitAt(s, 1) else DigitAt(s, 0);
      var rest := if long then s[2..] else s[1..];
      if hour < 24 && |rest| == 3 && rest[0] == ':' && IsDigit(rest, 1) && IsDigit(rest, 2)
         && DigitAt(rest, 1) * 10 + DigitAt(rest, 2) < 60
      then Some(hour * 60 + DigitAt(rest, 1) * 10 + DigitAt(rest, 2))
      else None
  }

  /** The weekday reader of the rules engine trims its input. */
  function RulesDay(s: string): Option<Weekday> {
    var name := Lower(TrimSpace(s));
    if name == "sun" || name == "sunday" then Some(0)
    else if name == "mon" || name == "monday" then Some(1)
    else if name == "tue" || name == "tuesday" then Some(2)
    else if name == "wed" || name == "wednesday" then Some(3)
    else if name == "thu" || name == "thursday" then Some(4)
    else if name == "fri" || name == "friday" then Some(5)
    else if name == "sat" || name == "saturday" then Some(6)
    else None
  }

  /** The policy's reader does not trim, and knows two more names. */
  function PolicyDay(s: string): Option<Weekday> {
    var name := Lower(s);
    if name == "mon" || name == "monday" then Some(1)
    else if name == "tue" || name == "tues" || name == "tuesday" then Some(2)
    else if name == "wed" || name == "wednesday" then Some(3)
    else if name == "thu" || name == "thursday" || name == "thurs" then Some(4)
    else if name == "fri" || name == "friday" then Some(5)
    else if name == "sat" || name == "saturday" then Some(6)
    else if name == "sun" || name == "sunday" then Some(0)
    else None
  }

  /** The days one comma-separated item stands for. */
  function ItemDays(item: string, day: string -> Option<Weekday>): Option<set<nat>> {
    var t := TrimSpace(item);
    if t == "" then Some({})
    else if Contains(t, '-') then
      match (day(Cut(t, '-').0), day(Cut(t, '-').1))
      case (Some(a), Some(b)) => Some(CyclicDays(a, b))
      case _ => None
    else
      match day(t)
      case Some(d) => Some({d})
      case None => None
  }

  /** The union over all items, or nothing when one cannot be read. */
  function ListDays(items: seq<string>, day: string -> Option<Weekday>): Option<set<nat>> {
    if items == [] then Some({})
    else
      match (ListDays(items[..|items| - 1], day), ItemDays(items[|items| - 1], day))
      case (Some(before), Some(days)) => Some(before + days)
      case _ => None
  }

  function SectionDays(section: string, day: string -> Option<Weekday>): Option<set<nat>> {
    ListDays(Split(TrimSpace(section), ','), day)
  }

  lemma BlankListDays(day: string -> Option<Weekday>)
    ensures ListDays([""], day) == Some({})
  {
    var none: set<nat> := {};
    assert [""][..0] == [] && ItemDays("", day) == Some(none) && none + none == none;
  }

  /** Adds the days of one item to those marked so far. */
  method MarkItem(item: string, day: string -> Option<Weekday>, marked: set<nat>) returns (days: Option<set<nat>>)
    ensures days == match ItemDays(item, day) case Some(ds) => Some(marked + ds) case None => None
  {
    var p := TrimSpace(item);
    if p == "" {
      assert marked + {} == marked;
      return Some(marked);
    }
    if Contains(p, '-') {
      var (from, to) := Cut(p, '-');
      var start := day(from);
      if start.None? {
        return None;
      }
      var end := day(to);
      if end.None? {
        return None;
      }
      var all, _ := MarkDays(start.value, end.value, marked);
      return Some(all);
    }
    var w := day(p);
    return if w.None? then None else Some(marked + {w.value});
  }

  /** The weekday loop both packages have, over either reader. */
  method ParseWeekdays(section: string, day: string -> Option<Weekday>) returns (days: Option<set<nat>>)
    ensures days == SectionDays(section, day)
  {
    var def := TrimSpace(section);
    if def == "" {
      assert Split(def, ',') == [""];
      BlankListDays(day);
      return Some({});
    }
    var parts := Split(def, ',');
    days := Some({});
    for i := 0 to |parts|
      invariant days.Some? && ListDays(parts[..i], day) == days
    {
      assert parts[..i + 1][..i] == parts[..i];
      days := MarkItem(parts[i], day, days.value);
      if days.None? {
        ListDaysFail(parts, day, i);
        return;
      }
    }
    assert parts[..|parts|] == parts;
  }

  lemma {:induction false} ListDaysFail(items: seq<string>, day: string -> Option<Weekday>, i: nat)
    requires i < |items| && ItemDays(items[i], day).None?
    ensures ListDays(items, day).None?
  {
    if i < |items| - 1 {
      ListDaysFail(items[..|items| - 1], day, i);
    }
  }

  // --- Definitions ------------------------------------------------------------------------------

  /** The weekday section and the time range of the part before the first '|'. */
  function Sections(timePart: string): (string, string) {
    if Contains(timePart, '@') then Cut(timePart, '@') else ("", timePart)
  }

  function TimeRange(range: string): Option<(Minute, Minute)> {
    var parts := Split(range, '-');
    if |parts| != 2 then None
    else
      match (ParseClock(parts[0]), ParseClock(parts[1]))
      case (Some(start), Some(end)) => Some((start, end))
      case _ => None
  }

  predicate IsZoneOption(opt: string) {
    |opt| >= 3 && opt[..3] == "tz="
  }

  /** The rules engine takes the last zone named, and refuses a definition that names an unknown one. */
  function RulesZone(opts: seq<string>, local: Zone, cal: Calendar): Option<Zone> {
    if opts == [] then Some(local)
    else
      var opt := TrimSpace(opts[|opts| - 1]);
      var before := RulesZone(opts[..|opts| - 1], local, cal);
      if before.Some? && IsZoneOption(opt) then cal.load(opt[3..]) else before
  }

  /** The policy takes the last zone it can load, and ignores the others. */
  function PolicyZone(opts: seq<string>, local: Zone, cal: Calendar): Zone {
    if opts == [] then local
    else
      var opt := TrimSpace(opts[|opts| - 1]);
      var before := PolicyZone(opts[..|opts| - 1], local, cal);
      if IsZoneOption(opt) && cal.load(opt[3..]).Some? then cal.load(opt[3..]).value else before
  }

  function RulesSpan(def: string, local: Zone, cal: Calendar): Option<Span> {
    var parts := Split(def, '|');
    var (section, range) := Sections(TrimSpace(parts[0]));
    match (TimeRange(range), RulesZone(parts[1..], local, cal), SectionDays(section, RulesDay))
    case (Some((start, end)), Some(zone), Some(days)) => Some(Span(start, end, days, zone))
    case _ => None
  }

  function PolicySpan(def: string, local: Zone, cal: Calendar): Option<Span> {
    var parts := Split(def, '|');
    var (section, range) := Sections(TrimSpace(parts[0]));
    match (TimeRange(range), SectionDays(section, PolicyDay))
    case (Some((start, end)), Some(days)) => Some(Span(start, end, days, PolicyZone(parts[1..], local, cal)))
    case _ => None
  }

  /** An empty time part is refused by both; it has no time range. */
  lemma BlankHasNoRange()
    ensures TimeRange(Sections("").1).None?
  {
  }

  predicate UnknownZone(opt: string, cal: Calendar) {
    IsZoneOption(TrimSpace(opt)) && cal.load(TrimSpace(opt)[3..]).None?
  }

  predicate HasUnknownZone(opts: seq<string>, cal: Calendar) {
    exists i | 0 <= i < |opts| :: UnknownZone(opts[i], cal)
  }

  lemma {:induction false} RulesZoneNone(opts: seq<string>, local: Zone, cal: Calendar)
    ensures RulesZone(opts, local, cal).None? <==> HasUnknownZone(opts, cal)
  {
    if opts != [] {
      var n := |opts| - 1;
      RulesZoneNone(opts[..n], local, cal);
      assert forall i | 0 <= i < n :: opts[..n][i] == opts[i];
      assert UnknownZone(opts[n], cal) ==> HasUnknownZone(opts, cal);
    }
  }

  lemma RulesZoneStep(opts: seq<string>, local: Zone, cal: Calendar, i: nat)
    requires i < |opts|
    ensures var opt, before := TrimSpace(opts[i]), RulesZone(opts[..i], local, cal);
            RulesZone(opts[..i + 1], local, cal) == if before.Some? && IsZoneOption(opt) then cal.load(opt[3..])
                else before
  {
    assert opts[..i + 1][..i] == opts[..i];
  }

  lemma PolicyZoneStep(opts: seq<string>, local: Zone, cal: Calendar, i: nat)
    requires i < |opts|
    ensures var opt, before := TrimSpace(opts[i]), PolicyZone(opts[..i], local, cal);
            PolicyZone(opts[..i + 1], local, cal)
            == if IsZoneOption(opt) && cal.load(opt[3..]).Some? then cal.load(opt[3..]).value else before
  {
    assert opts[..i + 1][..i] == opts[..i];
  }

  /** Of several zones the last one counts; for the policy, the last one that loads. */
  lemma LastZoneCounts(opts: seq<string>, tz: string, local: Zone, cal: Calendar)
    requires TrimSpace("tz=" + tz) == "tz=" + tz
    ensures !HasUnknownZone(opts, cal) ==> RulesZone(opts + ["tz=" + tz], local, cal) == cal.load(tz)
    ensures PolicyZone(opts + ["tz=" + tz], local, cal)
            == if cal.load(tz).Some? then cal.load(tz).value else PolicyZone(opts, local, cal)
  {
    var opt := "tz=" + tz;
    assert opt[..3] == "tz=" && opt[3..] == tz;
    assert (opts + [opt])[..|opts|] == opts;
    RulesZoneNone(opts, local, cal);
  }

  /** The option loop of the rules engine. */
  method ReadZone(opts: seq<string>, local: Zone, cal: Calendar) returns (zone: Option<Zone>)
    ensures zone == RulesZone(opts, local, cal)
  {
    var loc := local;
    for i := 0 to |opts|
      invariant RulesZone(opts[..i], local, cal) == Some(loc)
    {
      RulesZoneStep(opts, local, cal, i);
      var opt := TrimSpace(opts[i]);
      if opt == "" {
        continue;
      }
      if IsZoneOption(opt) {
        var l := cal.load(opt[3..]);
        if l.None? {
          RulesZoneNone(opts, local, cal);
          assert UnknownZone(opts[i], cal);
          return None;
        }
        loc := l.value;
      }
    }
    assert opts[..|opts|] == opts;
    return Some(loc);
  }

  method ParseTimeSpan(def: string, local: Zone, cal: Calendar) returns (span: Option<Span>)
    ensures span == RulesSpan(def, local, cal)
  {
    var parts := Split(def, '|');
    var timePart := TrimSpace(parts[0]);
    if timePart == "" {
      BlankHasNoRange();
      return None;
    }
    var (weekdayPart, range) := Sections(timePart);
    var times := TimeRange(range);
    if times.None? {
      return None;
    }
    var loc := ReadZone(parts[1..], local, cal);
    if loc.None? {
      return None;
    }
    var days := ParseWeekdays(weekdayPart, RulesDay);
    return if days.None? then None else Some(Span(times.value.0, times.value.1, days.value, loc.value));
  }

  /** The option loop of the policy. */
  method ReadPolicyZone(opts: seq<string>, local: Zone, cal: Calendar) returns (loc: Zone)
    ensures loc == PolicyZone(opts, local, cal)
  {
    loc := local;
    for i := 0 to |opts|
      invariant PolicyZone(opts[..i], local, cal) == loc
    {
      PolicyZoneStep(opts, local, cal, i);
      var opt := TrimSpace(opts[i]);
      if IsZoneOption(opt) {
        var l := cal.load(opt[3..]);
        if l.Some? {
          loc := l.value;
        }
      }
    }
    assert opts[..|opts|] == opts;
  }

  method ParsePolicyTimeSpan(def: string, local: Zone, cal: Calendar) returns (span: Option<Span>)
    ensures span == PolicySpan(def, local, cal)
  {
    var parts := Split(def, '|');
    var timePart := TrimSpace(parts[0]);
    if timePart == "" {
      BlankHasNoRange();
      return None;
    }
    var (weekdayPart, range) := Sections(timePart);
    var times := TimeRange(range);
    if times.None? {
      return None;
    }
    var loc := ReadPolicyZone(parts[1..], local, cal);
    var days := ParseWeekdays(weekdayPart, PolicyDay);
    return if days.None? then None else Some(Span(times.value.0, times.value.1, days.value, loc));
  }

  /** Is the instant inside the policy window? A definition that cannot be read never holds. */
  predicate InTimeSpan(def: string, now: int, local: Zone, cal: Calendar) {
    match PolicySpan(def, local, cal)
    case Some(span) => Covers(span, cal.wall(span.zone, now))
    case None => false
  }

  // --- The two parsers agree --------------------------------------------------------------------

  lemma PolicyNamesAreTrimmed(s: string)
    requires PolicyDay(s).Some?
    ensures TrimSpace(s) == s
  {
    var name := Lower(s);
    assert name != "" && !IsSpace(name[0]) && !IsSpace(name[|name| - 1]);
    assert name[0] == LowerChar(s[0]) && name[|s| - 1] == LowerChar(s[|s| - 1]);
    TrimmedStays(s);
  }

  lemma DayReadersAgree(s: string)
    requires RulesDay(s).Some? && PolicyDay(s).Some?
    ensures RulesDay(s) == PolicyDay(s)
  {
    PolicyNamesAreTrimmed(s);
  }

  predicate LongName(s: string) {
    Lower(s) == "tues" || Lower(s) == "thurs"
  }

  /** The readers differ on padded names, which only the rules engine reads, and on two long names; on nothing else. */
  lemma DayReadersDiffer(s: string)
    ensures RulesDay(s).Some? ==> (PolicyDay(s).None? <==> TrimSpace(s) != s)
    ensures PolicyDay(s).Some? ==> (RulesDay(s).None? <==> LongName(s))
  {
    if PolicyDay(s).Some? {
      PolicyNamesAreTrimmed(s);
    }
  }

  /** A weekday range with a blank before or after one of its names. */
  predicate PaddedRange(item: string) {
    var t := TrimSpace(item);
    Contains(t, '-') && (TrimSpace(Cut(t, '-').0) != Cut(t, '-').0 || TrimSpace(Cut(t, '-').1) != Cut(t, '-').1)
  }

  predicate UsesLongName(item: string) {
    var t := TrimSpace(item);
    if Contains(t, '-') then LongName(Cut(t, '-').0) || LongName(Cut(t, '-').1) else LongName(t)
  }

  lemma ItemReadersDiffer(item: string)
    ensures ItemDays(item, RulesDay).Some? ==> (ItemDays(item, PolicyDay).None? <==> PaddedRange(item))
    ensures ItemDays(item, PolicyDay).Some? ==> (ItemDays(item, RulesDay).None? <==> UsesLongName(item))
  {
    var t := TrimSpace(item);
    if t != "" && Contains(t, '-') {
      DayReadersDiffer(Cut(t, '-').0);
      DayReadersDiffer(Cut(t, '-').1);
    } else if t != "" {
      TrimTwice(item);
      DayReadersDiffer(t);
    }
  }

  lemma {:induction false} ListDaysNone(items: seq<string>, day: string -> Option<Weekday>)
    ensures ListDays(items, day).None? <==> exists i :: 0 <= i < |items| && ItemDays(items[i], day).None?
  {
    if items != [] {
      var n := |items| - 1;
      ListDaysNone(items[..n], day);
      assert forall i | 0 <= i < n :: items[..n][i] == items[i];
    }
  }

  /** The comma-separated items of a weekday section. */
  function Items(section: string): seq<string> {
    Split(TrimSpace(section), ',')
  }

  predicate HasPaddedRange(section: string) {
    exists i | 0 <= i < |Items(section)| :: PaddedRange(Items(section)[i])
  }

  predicate HasLongName(section: string) {
    exists i | 0 <= i < |Items(section)| :: UsesLongName(Items(section)[i])
  }

  lemma SectionReadersDiffer(section: string)
    ensures SectionDays(section, RulesDay).Some? ==>
              (SectionDays(section, PolicyDay).None? <==> HasPaddedRange(section))
    ensures SectionDays(section, PolicyDay).Some? ==> (SectionDays(section, RulesDay).None? <==> HasLongName(section))
  {
    var items := Items(section);
    ListDaysNone(items, RulesDay);
    ListDaysNone(items, PolicyDay);
    forall i | 0 <= i < |items|
      ensures ItemDays(items[i], RulesDay).Some? ==> (ItemDays(items[i], PolicyDay).None? <==> PaddedRange(items[i]))
      ensures ItemDays(items[i], PolicyDay).Some? ==> (ItemDays(items[i], RulesDay).None? <==> UsesLongName(items[i]))
    {
      ItemReadersDiffer(items[i]);
    }
  }

  lemma {:induction false} DayListsAgree(items: seq<string>)
    requires ListDays(items, RulesDay).Some? && ListDays(items, PolicyDay).Some?
    ensures ListDays(items, RulesDay) == ListDays(items, PolicyDay)
  {
    if items != [] {
      DayListsAgree(items[..|items| - 1]);
      var t := TrimSpace(items[|items| - 1]);
      if t != "" && Contains(t, '-') {
        DayReadersAgree(Cut(t, '-').0);
        DayReadersAgree(Cut(t, '-').1);
      } else if t != "" {
        DayReadersAgree(t);
      }
    }
  }

  lemma {:induction false} ZonesAgree(opts: seq<string>, local: Zone, cal: Calendar)
    requires RulesZone(opts, local, cal).Some?
    ensures RulesZone(opts, local, cal) == Some(PolicyZone(opts, local, cal))
  {
    if opts != [] {
      ZonesAgree(opts[..|opts| - 1], local, cal);
    }
  }

  /** A definition both accept means the same to both, at every instant. */
  lemma ParsersAgree(def: string, local: Zone, cal: Calendar, now: int)
    requires RulesSpan(def, local, cal).Some? && PolicySpan(def, local, cal).Some?
    ensures RulesSpan(def, local, cal) == PolicySpan(def, local, cal)
    ensures var span := RulesSpan(def, local, cal).value;
            Covers(span, cal.wall(span.zone, now)) == InTimeSpan(def, now, local, cal)
  {
    var parts := Split(def, '|');
    var (section, range) := Sections(TrimSpace(parts[0]));
    DayListsAgree(Split(TrimSpace(section), ','));
    ZonesAgree(parts[1..], local, cal);
  }

  /**
   * What the rules engine accepts, the policy refuses exactly over a padded weekday range; what the policy accepts,
   * the rules engine refuses exactly over one of two long names or an unknown zone.
   */
  lemma ParsersDifferOnlyOn(def: string, local: Zone, cal: Calendar)
    ensures var parts := Split(def, '|');
            var section := Sections(TrimSpace(parts[0])).0;
            && (RulesSpan(def, local, cal).Some? ==> (PolicySpan(def, local, cal).None? <==> HasPaddedRange(section)))
            && (PolicySpan(def, local, cal).Some? ==>
                  (RulesSpan(def, local, cal).None? <==> HasLongName(section) || HasUnknownZone(parts[1..], cal)))
  {
    var parts := Split(def, '|');
    SectionReadersDiffer(Sections(TrimSpace(parts[0])).0);
    RulesZoneNone(parts[1..], local, cal);
  }
}
