/** Writing time-span definitions in the documented formats, and reading them back. */
module SpanFormat {
  import opened Text
  import opened TimeSpan
  import opened Windows

  /** HH:MM */
  function Clock(m: Minute): string {
    var hour, minute := m / 60, m % 60;
    [Digit(hour / 10), Digit(hour % 10), ':', Digit(minute / 10), Digit(minute % 10)]
  }

  /** H:MM */
  function ShortClock(m: Minute): string
    requires m < 600
  {
    var hour, minute := m / 60, m % 60;
    [Digit(hour), ':', Digit(minute / 10), Digit(minute % 10)]
  }

  lemma ClockIsRead(m: Minute)
    ensures ParseClock(Clock(m)) == Some(m)
  {
    var s, hour, minute := Clock(m), m / 60, m % 60;
    assert DigitAt(s, 0) == hour / 10 && DigitAt(s, 1) == hour % 10;
    assert s[2..] == [':', Digit(minute / 10), Digit(minute % 10)];
  }

  lemma ShortClockIsRead(m: Minute)
    requires m < 600
    ensures ParseClock(ShortClock(m)) == Some(m)
  {
    var s, hour, minute := ShortClock(m), m / 60, m % 60;
    assert DigitAt(s, 0) == hour && !IsDigit(s, 1);
    assert s[1..] == [':', Digit(minute / 10), Digit(minute % 10)];
  }

  lemma DigitOf(s: string, i: nat)
    requires IsDigit(s, i)
    ensures s[i] == Digit(DigitAt(s, i))
  {
  }

  lemma TwoDigits(s: string, i: nat)
    requires IsDigit(s, i) && IsDigit(s, i + 1)
    ensures var n := DigitAt(s, i) * 10 + DigitAt(s, i + 1);
            n < 100 && s[i] == Digit(n / 10) && s[i + 1] == Digit(n % 10)
  {
    DigitOf(s, i);
    DigitOf(s, i + 1);
  }

  lemma HourAndMinute(hour: nat, minute: nat)
    requires minute < 60
    ensures (hour * 60 + minute) / 60 == hour && (hour * 60 + minute) % 60 == minute
  {
  }

  lemma ReadIsClock(s: string, m: Minute)
    requires ParseClock(s) == Some(m)
    ensures s == Clock(m) || (m < 600 && s == ShortClock(m))
  {
    var long := IsDigit(s, 1);
    var rest := if long then s[2..] else s[1..];
    var hour := if long then DigitAt(s, 0) * 10 + DigitAt(s, 1) else DigitAt(s, 0);
    var minute := DigitAt(rest, 1) * 10 + DigitAt(rest, 2);
    HourAndMinute(hour, minute);
    TwoDigits(rest, 1);
    assert rest == [':', Digit(minute / 10), Digit(minute % 10)];
    if long {
      TwoDigits(s, 0);
      assert s == [s[0], s[1]] + rest;
    } else {
      DigitOf(s, 0);
      assert s == [s[0]] + rest;
    }
  }

  /** A text is read as a clock time iff it is that time written with or without a leading zero. */
  lemma ClockMeaning(s: string, m: Minute)
    ensures ParseClock(s) == Some(m) <==> s == Clock(m) || (m < 600 && s == ShortClock(m))
  {
    ClockIsRead(m);
    if m < 600 {
      ShortClockIsRead(m);
    }
    if ParseClock(s) == Some(m) {
      ReadIsClock(s, m);
    }
  }

  function DayName(d: Weekday): string {
    ["sun", "mon", "tue", "wed", "thu", "fri", "sat"][d]
  }

  lemma DayNameIsRead(d: Weekday)
    ensures RulesDay(DayName(d)) == Some(d) && PolicyDay(DayName(d)) == Some(d)
  {
    TrimmedStays(DayName(d));
    assert Lower(DayName(d)) == DayName(d);
  }

  function FullDayName(d: Weekday): string {
    ["sunday", "monday", "tuesday", "wednesday", "thursday", "friday", "saturday"][d]
  }

  /** What each reader takes for a day: its short or full name in any letter case, and two more for the policy. */
  lemma RulesDayMeaning(s: string, d: Weekday)
    ensures RulesDay(s) == Some(d) <==> Lower(TrimSpace(s)) == DayName(d) || Lower(TrimSpace(s)) == FullDayName(d)
  {
  }

  lemma PolicyDayMeaning(s: string, d: Weekday)
    ensures PolicyDay(s) == Some(d) <==>
            || Lower(s) == DayName(d) || Lower(s) == FullDayName(d)
            || (d == 2 && Lower(s) == "tues") || (d == 4 && Lower(s) == "thurs")
  {
  }

  lemma DayNameLacks(d: Weekday, c: char)
    requires c in "|@,-"
    ensures !Contains(DayName(d), c)
  {
  }

  datatype Item = Single(day: Weekday) | FromTo(first: Weekday, last: Weekday)
  /** A list of weekdays and weekday ranges; the empty list is every day. */
  type Days = seq<Item>

  function ItemText(item: Item): string {
    match item
    case Single(d) => DayName(d)
    case FromTo(a, b) => DayName(a) + "-" + DayName(b)
  }

  function ItemSet(item: Item): set<nat> {
    match item
    case Single(d) => {d}
    case FromTo(a, b) => CyclicDays(a, b)
  }

  function Texts(days: Days): (texts: seq<string>)
    ensures |texts| == |days| && forall i | 0 <= i < |days| :: texts[i] == ItemText(days[i])
  {
    seq(|days|, i requires 0 <= i < |days| => ItemText(days[i]))
  }

  function Section(days: Days): string {
    if days == [] then "" else Join(Texts(days), ',')
  }

  function Weekdays(days: Days): set<nat> {
    if days == [] then {} else Weekdays(days[..|days| - 1]) + ItemSet(days[|days| - 1])
  }

  function Range(start: Minute, end: Minute): string {
    Clock(start) + "-" + Clock(end)
  }

  /** The part of a definition before its options. */
  function TimePart(days: Days, start: Minute, end: Minute): string {
    if days == [] then Range(start, end) else Section(days) + "@" + Range(start, end)
  }

  function Format(days: Days, start: Minute, end: Minute, tz: Option<string>): string {
    TimePart(days, start, end) + (if tz.Some? then "|" + ("tz=" + tz.value) else "")
  }

  /** A zone name as it can stand in a definition. */
  predicate PlainZone(tz: string) {
    tz != "" && !IsSpace(tz[|tz| - 1]) && !Contains(tz, '|')
  }

  lemma RangeIsRead(start: Minute, end: Minute)
    ensures TimeRange(Range(start, end)) == Some((start, end))
    ensures !Contains(Range(start, end), '@') && !Contains(Range(start, end), '|')
  {
    ClockMeaning(Clock(start), start);
    ClockMeaning(Clock(end), end);
    SplitOnce(Clock(start), Clock(end), '-');
  }

  /** Starts and ends with something that is no space. */
  predicate Trimmed(s: string) {
    s != "" && !IsSpace(s[0]) && !IsSpace(s[|s| - 1])
  }

  lemma DayNameIsTrimmed(d: Weekday)
    ensures |DayName(d)| == 3 && Trimmed(DayName(d))
  {
  }

  lemma ItemIsTrimmed(item: Item)
    ensures Trimmed(ItemText(item)) && TrimSpace(ItemText(item)) == ItemText(item)
  {
    var text := ItemText(item);
    if item.FromTo? {
      var a, b := DayName(item.first), DayName(item.last);
      DayNameIsTrimmed(item.first);
      DayNameIsTrimmed(item.last);
      assert text[0] == a[0] && text[6] == b[2];
    } else {
      DayNameIsTrimmed(item.day);
    }
    TrimmedStays(text);
  }

  lemma {:induction false} JoinIsTrimmed(parts: seq<string>, c: char)
    requires |parts| >= 1 && forall i | 0 <= i < |parts| :: Trimmed(parts[i])
    ensures Trimmed(Join(parts, c))
  {
    if |parts| > 1 {
      JoinIsTrimmed(parts[1..], c);
      var rest := Join(parts[1..], c);
      var s := parts[0] + [c] + rest;
      assert s[0] == parts[0][0] && s[|s| - 1] == rest[|rest| - 1];
    }
  }

  lemma SectionIsTrimmed(days: Days)
    ensures TrimSpace(Section(days)) == Section(days)
    ensures days != [] ==> Trimmed(Section(days))
  {
    if days != [] {
      forall i | 0 <= i < |days| ensures Trimmed(Texts(days)[i]) {
        ItemIsTrimmed(days[i]);
      }
      JoinIsTrimmed(Texts(days), ',');
      TrimmedStays(Section(days));
    }
  }

  predicate Reads(day: string -> Option<Weekday>, d: Weekday) {
    day(DayName(d)) == Some(d)
  }

  lemma ItemIsRead(item: Item, day: string -> Option<Weekday>)
    requires forall d: Weekday :: Reads(day, d)
    ensures ItemDays(ItemText(item), day) == Some(ItemSet(item))
  {
    var text := ItemText(item);
    ItemIsTrimmed(item);
    if item.FromTo? {
      assert Reads(day, item.first) && Reads(day, item.last);
      DayNameLacks(item.first, '-');
      CutUnique(DayName(item.first), DayName(item.last), '-');
    } else {
      assert Reads(day, item.day);
      DayNameLacks(item.day, '-');
    }
  }

  lemma {:induction false} ItemsAreRead(days: Days, day: string -> Option<Weekday>)
    requires forall d: Weekday :: Reads(day, d)
    ensures ListDays(Texts(days), day) == Some(Weekdays(days))
  {
    if days != [] {
      var n := |days| - 1;
      ItemsAreRead(days[..n], day);
      ItemIsRead(days[n], day);
      assert Texts(days)[..n] == Texts(days[..n]);
    }
  }

  lemma SectionIsRead(days: Days, day: string -> Option<Weekday>)
    requires forall d: Weekday :: Reads(day, d)
    ensures SectionDays(Section(days), day) == Some(Weekdays(days))
  {
    SectionIsTrimmed(days);
    if days == [] {
      assert Split("", ',') == [""];
      BlankListDays(day);
    } else {
      forall i | 0 <= i < |days| ensures !Contains(Texts(days)[i], ',') {
        ItemLacks(days[i], ',');
      }
      SplitJoin(Texts(days), ',');
      ItemsAreRead(days, day);
    }
  }

  lemma ItemLacks(item: Item, c: char)
    requires c == ',' || c == '@' || c == '|'
    ensures !Contains(ItemText(item), c)
  {
    if item.FromTo? {
      DayNameLacks(item.first, c);
      DayNameLacks(item.last, c);
      ConcatLacks(DayName(item.first), "-", c);
      ConcatLacks(DayName(item.first) + "-", DayName(item.last), c);
    } else {
      DayNameLacks(item.day, c);
    }
  }

  lemma {:induction false} JoinLacks(parts: seq<string>, c: char, d: char)
    requires |parts| >= 1 && c != d && forall i | 0 <= i < |parts| :: !Contains(parts[i], d)
    ensures !Contains(Join(parts, c), d)
  {
    if |parts| > 1 {
      JoinLacks(parts[1..], c, d);
      ConcatLacks(parts[0], [c], d);
      ConcatLacks(parts[0] + [c], Join(parts[1..], c), d);
    }
  }

  lemma SectionLacks(days: Days, c: char)
    requires c == '@' || c == '|'
    ensures !Contains(Section(days), c)
  {
    if days != [] {
      forall i | 0 <= i < |days| ensures !Contains(Texts(days)[i], c) {
        ItemLacks(days[i], c);
      }
      JoinLacks(Texts(days), ',', c);
    }
  }

  lemma TimePartIsRead(days: Days, start: Minute, end: Minute)
    ensures var part := TimePart(days, start, end);
            !Contains(part, '|') && TrimSpace(part) == part && Sections(part) == (Section(days), Range(start, end))
  {
    var part, range := TimePart(days, start, end), Range(start, end);
    RangeIsRead(start, end);
    if days != [] {
      SectionIsTrimmed(days);
      assert part[0] == Section(days)[0] && part[|part| - 1] == range[|range| - 1];
      SectionLacks(days, '@');
      SectionLacks(days, '|');
      CutUnique(Section(days), range, '@');
      ConcatLacks(Section(days), "@", '|');
      ConcatLacks(Section(days) + "@", range, '|');
    }
    TrimmedStays(part);
  }

  lemma OptionIsRead(tz: string, local: Zone, cal: Calendar)
    requires PlainZone(tz) && cal.load(tz).Some?
    ensures RulesZone(["tz=" + tz], local, cal) == cal.load(tz)
    ensures Some(PolicyZone(["tz=" + tz], local, cal)) == cal.load(tz)
  {
    var opt := "tz=" + tz;
    TrimmedStays(opt);
    assert opt[..3] == "tz=" && opt[3..] == tz;
    var opts := [opt];
    assert opts[..0] == [];
  }

  lemma OptionIsSplit(part: string, opt: string)
    requires !Contains(part, '|') && !Contains(opt, '|')
    ensures Split(part + ("|" + opt), '|') == [part, opt]
  {
    SplitOnce(part, opt, '|');
    assert part + ("|" + opt) == part + "|" + opt;
  }

  lemma FormatIsSplit(days: Days, start: Minute, end: Minute, tz: Option<string>)
    requires tz.Some? ==> PlainZone(tz.value)
    ensures Split(Format(days, start, end, tz), '|')
            == [TimePart(days, start, end)] + if tz.Some? then ["tz=" + tz.value] else []
  {
    var part := TimePart(days, start, end);
    TimePartIsRead(days, start, end);
    if tz.Some? {
      ConcatLacks("tz=", tz.value, '|');
      OptionIsSplit(part, "tz=" + tz.value);
    } else {
      assert part + "" == part;
    }
  }

  /** Both parsers put a definition together from its parts. */
  lemma PartsMakeSpan(def: string, parts: seq<string>, section: string, range: string, span: Span, local: Zone,
                      cal: Calendar)
    requires Split(def, '|') == parts && |parts| >= 1 && Sections(TrimSpace(parts[0])) == (section, range)
    requires TimeRange(range) == Some((span.start, span.end))
    requires SectionDays(section, RulesDay) == Some(span.weekdays)
               && SectionDays(section, PolicyDay) == Some(span.weekdays)
    requires RulesZone(parts[1..], local, cal) == Some(span.zone) && PolicyZone(parts[1..], local, cal) == span.zone
    ensures RulesSpan(def, local, cal) == Some(span) && PolicySpan(def, local, cal) == Some(span)
  {
  }

  lemma OptionsAreRead(tz: Option<string>, local: Zone, cal: Calendar)
    requires tz.Some? ==> PlainZone(tz.value) && cal.load(tz.value).Some?
    ensures var opts := if tz.Some? then ["tz=" + tz.value] else [];
            var zone := if tz.Some? then cal.load(tz.value).value else local;
            RulesZone(opts, local, cal) == Some(zone) && PolicyZone(opts, local, cal) == zone
  {
    if tz.Some? {
      OptionIsRead(tz.value, local, cal);
    }
  }

  lemma DaysAreRead(days: Days)
    ensures SectionDays(Section(days), RulesDay) == Some(Weekdays(days))
    ensures SectionDays(Section(days), PolicyDay) == Some(Weekdays(days))
  {
    forall d: Weekday ensures Reads(RulesDay, d) && Reads(PolicyDay, d) {
      DayNameIsRead(d);
    }
    SectionIsRead(days, RulesDay);
    SectionIsRead(days, PolicyDay);
  }

  /** Round trip: what is written in the documented formats is read back, by both parsers, as what was meant. */
  lemma FormattedSpanIsRead(days: Days, start: Minute, end: Minute, tz: Option<string>, local: Zone, cal: Calendar)
    requires tz.Some? ==> PlainZone(tz.value) && cal.load(tz.value).Some?
    ensures var zone := if tz.Some? then cal.load(tz.value).value else local;
            var span := Some(Span(start, end, Weekdays(days), zone));
            && RulesSpan(Format(days, start, end, tz), local, cal) == span
            && PolicySpan(Format(days, start, end, tz), local, cal) == span
  {
    var opts := if tz.Some? then ["tz=" + tz.value] else [];
    var parts := [TimePart(days, start, end)] + opts;
    FormatIsSplit(days, start, end, tz);
    TimePartIsRead(days, start, end);
    RangeIsRead(start, end);
    DaysAreRead(days);
    OptionsAreRead(tz, local, cal);
    assert parts[1..] == opts;
    PartsMakeSpan(Format(days, start, end, tz), parts, Section(days), Range(start, end),
                  Span(start, end, Weekdays(days), if tz.Some? then cal.load(tz.value).value else local), local, cal);
  }

  // --- Hours --------------------------------------------------------------------------------------

  /** An item names a day, or is a range that passes it on the way from its first day to its last. */
  predicate Names(item: Item, d: Weekday) {
    match item
    case Single(day) => d == day
    case FromTo(a, b) => (d - a) % 7 <= (b - a) % 7
  }

  lemma NamesMeaning(item: Item, d: Weekday)
    ensures d in ItemSet(item) <==> Names(item, d)
  {
    if item.FromTo? {
      assert DaysAfter(item.first, d) == (d - item.first) % 7;
      assert DaysAfter(item.first, item.last) == (item.last - item.first) % 7;
    }
  }

  /** A day is listed if an item names it. */
  lemma {:induction false} WeekdaysMeaning(days: Days, d: Weekday)
    ensures d in Weekdays(days) <==> exists i :: 0 <= i < |days| && Names(days[i], d)
  {
    if days != [] {
      var n := |days| - 1;
      WeekdaysMeaning(days[..n], d);
      NamesMeaning(days[n], d);
      assert forall i | 0 <= i < n :: days[..n][i] == days[i];
    }
  }

  lemma SomeDayIsListed(days: Days)
    requires days != []
    ensures Weekdays(days) != {}
  {
    var item := days[|days| - 1];
    var d := if item.Single? then item.day else item.first;
    assert d in ItemSet(item) && d in Weekdays(days);
  }

  /** The policy's verdict on a definition in the documented formats, at any instant, from the clock on the wall. */
  lemma PolicyHours(days: Days, start: Minute, end: Minute, tz: Option<string>, now: int, local: Zone, cal: Calendar)
    requires tz.Some? ==> PlainZone(tz.value) && cal.load(tz.value).Some?
    ensures var w := cal.wall(if tz.Some? then cal.load(tz.value).value else local, now);
            InTimeSpan(Format(days, start, end, tz), now, local, cal) <==>
            && (days == [] || w.weekday in Weekdays(days))
            && (if start <= end then start <= w.minute < end else w.minute >= start || w.minute <= end)
  {
    FormattedSpanIsRead(days, start, end, tz, local, cal);
    if days != [] {
      SomeDayIsListed(days);
    }
  }

  // --- Definitions only one parser reads ----------------------------------------------------------

  /** A weekday section and a range make a definition that each parser accepts iff it reads the section. */
  lemma SectionDecides(section: string, start: Minute, end: Minute, local: Zone, cal: Calendar)
    requires Trimmed(section) && !Contains(section, '@') && !Contains(section, '|')
    ensures var def := section + "@" + Range(start, end);
            && Split(def, '|') == [def] && Sections(TrimSpace(def)).0 == section
            && (RulesSpan(def, local, cal).Some? <==> SectionDays(section, RulesDay).Some?)
            && (PolicySpan(def, local, cal).Some? <==> SectionDays(section, PolicyDay).Some?)
  {
    var range := Range(start, end);
    var def := section + "@" + range;
    RangeIsRead(start, end);
    ConcatLacks(section, "@", '|');
    ConcatLacks(section + "@", range, '|');
    assert def[0] == section[0] && def[|def| - 1] == range[|range| - 1];
    TrimmedStays(def);
    CutUnique(section, range, '@');
    assert [def][1..] == [];
  }

  lemma OneItemSection(item: string, day: string -> Option<Weekday>)
    requires Trimmed(item) && !Contains(item, ',')
    ensures SectionDays(item, day).Some? <==> ItemDays(item, day).Some?
  {
    TrimmedStays(item);
    var items := [item];
    assert Split(item, ',') == items;
    ListDaysNone(items, day);
    assert items[0] == item;
  }

  lemma PaddedNamesAreRead()
    ensures RulesDay("mon ") == Some(1) && RulesDay(" fri") == Some(5) && PolicyDay("mon ").None?
  {
    assert TrimLeft("mon ") == "mon " && TrimRight("mon ") == TrimRight("mon") == "mon";
    assert TrimLeft(" fri") == TrimLeft("fri") == "fri" && TrimRight("fri") == "fri";
    assert Lower("mon") == "mon" && Lower("fri") == "fri" && Lower("mon ")[3] == ' ';
  }

  const PADDED := "mon - fri"

  lemma PaddedText()
    ensures Trimmed(PADDED) && !Contains(PADDED, ',') && !Contains(PADDED, '@') && !Contains(PADDED, '|')
  {
  }

  lemma RangeItem(item: string, a: string, b: string, day: string -> Option<Weekday>)
    requires Trimmed(item) && item == a + "-" + b && !Contains(a, '-')
    ensures ItemDays(item, day).Some? <==> day(a).Some? && day(b).Some?
  {
    TrimmedStays(item);
    CutUnique(a, b, '-');
  }

  lemma PaddedItem()
    ensures ItemDays(PADDED, RulesDay).Some? && ItemDays(PADDED, PolicyDay).None?
  {
    var a, b := "mon ", " fri";
    assert PADDED == a + "-" + b;
    PaddedText();
    PaddedNamesAreRead();
    RangeItem(PADDED, a, b, RulesDay);
    RangeItem(PADDED, a, b, PolicyDay);
  }

  /** "mon - fri" is a range to the rules engine only. */
  lemma PaddedRangeDivides(start: Minute, end: Minute, local: Zone, cal: Calendar)
    ensures var def := PADDED + "@" + Range(start, end);
            RulesSpan(def, local, cal).Some? && PolicySpan(def, local, cal).None?
  {
    PaddedText();
    PaddedItem();
    OneItemSection(PADDED, RulesDay);
    OneItemSection(PADDED, PolicyDay);
    SectionDecides(PADDED, start, end, local, cal);
  }

  lemma LongNameItem(name: string)
    requires name == "tues" || name == "thurs"
    ensures Trimmed(name) && !Contains(name, ',') && !Contains(name, '@') && !Contains(name, '|')
    ensures ItemDays(name, RulesDay).None? && ItemDays(name, PolicyDay).Some?
  {
    TrimmedStays(name);
    assert Lower(name) == name && !Contains(name, '-');
  }

  /** "tues" and "thurs" are days to the policy only. */
  lemma LongNameDivides(name: string, start: Minute, end: Minute, local: Zone, cal: Calendar)
    requires name == "tues" || name == "thurs"
    ensures var def := name + "@" + Range(start, end);
            RulesSpan(def, local, cal).None? && PolicySpan(def, local, cal).Some?
  {
    LongNameItem(name);
    OneItemSection(name, RulesDay);
    OneItemSection(name, PolicyDay);
    SectionDecides(name, start, end, local, cal);
  }

  lemma UnknownOption(tz: string, local: Zone, cal: Calendar)
    requires PlainZone(tz) && cal.load(tz).None?
    ensures RulesZone(["tz=" + tz], local, cal).None? && PolicyZone(["tz=" + tz], local, cal) == local
  {
    var opt := "tz=" + tz;
    TrimmedStays(opt);
    assert opt[..3] == "tz=" && opt[3..] == tz;
    var opts := [opt];
    assert opts[..0] == [];
  }

  lemma PartsWithoutZone(def: string, parts: seq<string>, section: string, range: string, span: Span, local: Zone,
                         cal: Calendar)
    requires Split(def, '|') == parts && |parts| >= 1 && Sections(TrimSpace(parts[0])) == (section, range)
    requires TimeRange(range) == Some((span.start, span.end)) && SectionDays(section, PolicyDay) == Some(span.weekdays)
    requires RulesZone(parts[1..], local, cal).None? && PolicyZone(parts[1..], local, cal) == span.zone
    ensures RulesSpan(def, local, cal).None? && PolicySpan(def, local, cal) == Some(span)
  {
  }

  /** A zone that does not load is refused by the rules engine, and passed over by the policy. */
  lemma UnknownZoneDivides(days: Days, start: Minute, end: Minute, tz: string, local: Zone, cal: Calendar)
    requires PlainZone(tz) && cal.load(tz).None?
    ensures RulesSpan(Format(days, start, end, Some(tz)), local, cal).None?
    ensures PolicySpan(Format(days, start, end, Some(tz)), local, cal) == Some(Span(start, end, Weekdays(days), local))
  {
    var opts := ["tz=" + tz];
    var parts := [TimePart(days, start, end)] + opts;
    FormatIsSplit(days, start, end, Some(tz));
    TimePartIsRead(days, start, end);
    RangeIsRead(start, end);
    DaysAreRead(days);
    UnknownOption(tz, local, cal);
    assert parts[1..] == opts;
    PartsWithoutZone(Format(days, start, end, Some(tz)), parts, Section(days), Range(start, end),
                     Span(start, end, Weekdays(days), local), local, cal);
  }
}
