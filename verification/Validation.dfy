/** What the configuration validator promises the rules engine (internal/config/validate.go). */
module Validation {
  import opened Config
  import opened RulesEngine
  import opened SpanFormat
  import opened Text
  import opened TimeSpan
  import opened Windows

  /** Each option after the time part is blank or a zone that loads. */
  predicate ValidOptions(opts: seq<string>, cal: Calendar) {
    forall i | 0 <= i < |opts| ::
      TrimSpace(opts[i]) == "" || (IsZoneOption(TrimSpace(opts[i])) && cal.load(TrimSpace(opts[i])[3..]).Some?)
  }

  /** The validator looks at the time part as it stands, without trimming it. */
  predicate ValidateTimeSpan(def: string, cal: Calendar) {
    var parts := Split(def, '|');
    var (section, range) := Sections(parts[0]);
    && parts[0] != ""
    && (Contains(parts[0], '@') ==> TrimSpace(section) != "")
    && TimeRange(range).Some? && TimeRange(range).value.0 != TimeRange(range).value.1
    && ValidOptions(parts[1..], cal)
  }

  predicate ValidateRule(rule: Rule, cal: Calendar) {
    !rule.action.Unknown? && (TrimSpace(rule.timeSpan) != "" ==> ValidateTimeSpan(rule.timeSpan, cal))
  }

  // --- Trimming the time part ---------------------------------------------------------------------

  lemma {:induction false} SplitPair(s: string, c: char)
    requires |Split(s, c)| == 2
    ensures s == Split(s, c)[0] + [c] + Split(s, c)[1]
  {
    assert s != "";
    if s[0] != c {
      SplitPair(s[1..], c);
      assert s == [s[0]] + s[1..];
    }
  }

  lemma RangeIsTrimmed(range: string)
    requires TimeRange(range).Some?
    ensures range != "" && !IsSpace(range[0]) && !IsSpace(range[|range| - 1])
  {
    SplitPair(range, '-');
    var parts := Split(range, '-');
    assert parts[0] != "" && parts[1] != "";
    assert range[0] == parts[0][0] && range[|range| - 1] == parts[1][|parts[1]| - 1];
  }

  /** Trimming the time part changes nothing the runtime parser looks at. */
  lemma TrimmedSections(timePart: string)
    requires TimeRange(Sections(timePart).1).Some?
    requires Contains(timePart, '@') ==> TrimSpace(Sections(timePart).0) != ""
    ensures Sections(TrimSpace(timePart)).1 == Sections(timePart).1
    ensures TrimSpace(Sections(TrimSpace(timePart)).0) == TrimSpace(Sections(timePart).0)
  {
    var (section, range) := Sections(timePart);
    RangeIsTrimmed(range);
    if Contains(timePart, '@') {
      var left := TrimLeft(section);
      TrimLeftMeaning(section);
      assert left != "";
      TrimLeftPrefix(section, "@" + range);
      assert timePart == section + ("@" + range);
      assert TrimSpace(timePart) == left + "@" + range;
      assert forall i | 0 <= i < |left| :: left[i] == section[|section| - |left| + i];
      CutUnique(left, range, '@');
    } else {
      TrimmedStays(timePart);
    }
  }

  lemma {:induction false} ValidOptionsLoad(opts: seq<string>, local: Zone, cal: Calendar)
    requires ValidOptions(opts, cal)
    ensures RulesZone(opts, local, cal).Some?
  {
    if opts != [] {
      ValidOptionsLoad(opts[..|opts| - 1], local, cal);
    }
  }

  /** The weekday section of a definition, as the runtime reads it. */
  function WeekdaySection(def: string): string {
    Sections(TrimSpace(Split(def, '|')[0])).0
  }

  /** The start and end the validator saw. */
  function ValidatedRange(def: string): Option<(Minute, Minute)> {
    TimeRange(Sections(Split(def, '|')[0]).1)
  }

  /** A validated definition is read exactly when its weekday names are, with the same, different start and end. */
  lemma ValidatedSpanIsRead(def: string, local: Zone, cal: Calendar)
    requires ValidateTimeSpan(def, cal)
    ensures RulesSpan(def, local, cal).Some? <==> SectionDays(WeekdaySection(def), RulesDay).Some?
    ensures RulesSpan(def, local, cal).Some? ==>
              var span := RulesSpan(def, local, cal).value;
              span.start != span.end && Some((span.start, span.end)) == ValidatedRange(def)
  {
    var parts := Split(def, '|');
    TrimmedSections(parts[0]);
    ValidOptionsLoad(parts[1..], local, cal);
  }

  /** A blank definition passes the validator unread, and the runtime cannot read it. */
  lemma BlankSpanIsNotRead(def: string, local: Zone, cal: Calendar)
    requires TrimSpace(def) == ""
    ensures RulesSpan(def, local, cal).None?
  {
    TrimSpaceBlank(def);
    assert !Contains(def, '|');
    BlankHasNoRange();
  }

  lemma PartsValidate(def: string, parts: seq<string>, section: string, range: string, start: Minute, end: Minute,
                      cal: Calendar)
    requires Split(def, '|') == parts && |parts| >= 1 && parts[0] != "" && Sections(parts[0]) == (section, range)
    requires Contains(parts[0], '@') ==> TrimSpace(section) != ""
    requires TimeRange(range) == Some((start, end)) && ValidOptions(parts[1..], cal)
    ensures ValidateTimeSpan(def, cal) <==> start != end
  {
  }

  lemma ZoneOptionIsValid(tz: string, cal: Calendar)
    requires PlainZone(tz) && cal.load(tz).Some?
    ensures ValidOptions(["tz=" + tz], cal)
  {
    TrimmedStays("tz=" + tz);
    assert ("tz=" + tz)[3..] == tz && ("tz=" + tz)[..3] == "tz=";
  }

  /** A definition in the documented formats validates exactly when its ends differ. */
  lemma FormattedSpanValidates(days: Days, start: Minute, end: Minute, tz: Option<string>, cal: Calendar)
    requires tz.Some? ==> PlainZone(tz.value) && cal.load(tz.value).Some?
    ensures ValidateTimeSpan(Format(days, start, end, tz), cal) <==> start != end
  {
    var part, opts := TimePart(days, start, end), if tz.Some? then ["tz=" + tz.value] else [];
    FormatIsSplit(days, start, end, tz);
    TimePartIsRead(days, start, end);
    RangeIsRead(start, end);
    SectionIsTrimmed(days);
    if tz.Some? {
      ZoneOptionIsValid(tz.value, cal);
    }
    var parts := [part] + opts;
    assert parts[1..] == opts;
    PartsValidate(Format(days, start, end, tz), parts, Section(days), Range(start, end), start, end, cal);
  }

  /** An option is valid if it is blank, or names a zone that loads; padding does not matter. */
  ghost predicate GoodOption(opt: string, cal: Calendar) {
    (forall c | c in opt :: IsSpace(c)) || exists tz :: TrimSpace(opt) == "tz=" + tz && cal.load(tz).Some?
  }

  lemma OptionIsGood(opt: string, cal: Calendar)
    ensures ValidOptions([opt], cal) <==> GoodOption(opt, cal)
  {
    var front, back := TrimSpaceMeaning(opt);
    var t := TrimSpace(opt);
    var opts := [opt];
    assert opts[0] == opt;
    assert ValidOptions(opts, cal) <==> t == "" || (IsZoneOption(t) && cal.load(t[3..]).Some?);
    if t == "" {
      assert opt == front + back;
    } else {
      assert opt[|front|] == t[0] && t[0] in opt;
    }
    if IsZoneOption(t) {
      assert t == "tz=" + t[3..];
    }
    forall tz | t == "tz=" + tz ensures IsZoneOption(t) && t[3..] == tz {
    }
  }

  /** With one option more, a definition validates exactly when its ends differ and the option is good. */
  lemma OptionValidates(days: Days, start: Minute, end: Minute, opt: string, cal: Calendar)
    requires !Contains(opt, '|')
    ensures ValidateTimeSpan(TimePart(days, start, end) + ("|" + opt), cal) <==> start != end && GoodOption(opt, cal)
  {
    var part := TimePart(days, start, end);
    TimePartIsRead(days, start, end);
    RangeIsRead(start, end);
    SectionIsTrimmed(days);
    OptionIsSplit(part, opt);
    OptionIsGood(opt, cal);
    assert [part, opt][1..] == [opt];
    assert part != "" by {
      assert Range(start, end) != "";
    }
    if days == [] {
      assert part == Range(start, end);
    }
  }

  /** So does a rule with such a definition, if its action is a known one. */
  lemma FormattedRuleValidates(action: ActionType, days: Days, start: Minute, end: Minute, tz: Option<string>,
                               cal: Calendar)
    requires tz.Some? ==> PlainZone(tz.value) && cal.load(tz.value).Some?
    ensures ValidateRule(Rule(action, Format(days, start, end, tz)), cal) <==> !action.Unknown? && start != end
  {
    var def := Format(days, start, end, tz);
    FormattedSpanValidates(days, start, end, tz, cal);
    if TrimSpace(def) == "" {
      TrimSpaceBlank(def);
      FormatHasColon(days, start, end, tz);
    }
  }

  lemma FormatHasColon(days: Days, start: Minute, end: Minute, tz: Option<string>)
    ensures exists i :: 0 <= i < |Format(days, start, end, tz)| && !IsSpace(Format(days, start, end, tz)[i])
  {
    var def, n := Format(days, start, end, tz), |TimePart(days, start, end)| - 11;
    assert |Range(start, end)| == 11 && n >= 0;
    assert def[n + 2] == TimePart(days, start, end)[n + 2] == Range(start, end)[2] == ':';
  }

  /** A validated rule fails at run time in exactly three cases. */
  predicate StillFails(rule: Rule) {
    if TrimSpace(rule.timeSpan) == "" then rule.timeSpan != "" || rule.action == BlockedTimeSpan
    else SectionDays(WeekdaySection(rule.timeSpan), RulesDay).None?
  }

  lemma ValidatedRuleFailsIff(rule: Rule, at: Moment)
    requires ValidateRule(rule, at.cal)
    ensures RuleAction(rule, at).None? <==> StillFails(rule)
  {
    if TrimSpace(rule.timeSpan) == "" {
      BlankSpanIsNotRead(rule.timeSpan, at.local, at.cal);
    } else {
      ValidatedSpanIsRead(rule.timeSpan, at.local, at.cal);
    }
  }

  /** Two gaps in the validator: a time-span rule without a span, and a blank span. */
  lemma UnreadSpansValidate(cal: Calendar)
    ensures ValidateRule(Rule(BlockedTimeSpan, ""), cal) && StillFails(Rule(BlockedTimeSpan, ""))
    ensures ValidateRule(Rule(BlockedDevice, " "), cal) && StillFails(Rule(BlockedDevice, " "))
  {
    assert TrimSpace(" ") == "";
  }

  /** The third: any text that is no weekday name validates in place of one. */
  lemma AnyWeekdayTextValidates(section: string, range: string, cal: Calendar)
    requires TrimSpace(section) == section != "" && RulesDay(section).None?
    requires !Contains(section, '@') && !Contains(section, '|') && !Contains(section, ',') && !Contains(section, '-')
    requires !Contains(range, '|') && TimeRange(range).Some? && TimeRange(range).value.0 != TimeRange(range).value.1
    ensures var rule := Rule(BlockedDevice, section + "@" + range);
            ValidateRule(rule, cal) && StillFails(rule)
  {
    var def := section + "@" + range;
    CutUnique(section, range, '@');
    forall i | 0 <= i < |def| ensures def[i] != '|' {
      assert i < |section| ==> def[i] == section[i];
      assert i > |section| ==> def[i] == range[i - |section| - 1];
    }
    TrimmedSections(def);
    assert Split(def, '|') == [def];
    ListDaysFail([section], RulesDay, 0);
  }

  predicate CleanHosts(hosts: seq<Host>, cal: Calendar) {
    forall h | h in hosts :: forall r | r in h.rules :: ValidateRule(r, cal) && !StillFails(r)
  }

  predicate CleanConfig(conf: Config, cal: Calendar) {
    CleanHosts(conf.hosts, cal) && forall d | d in conf.domains :: CleanHosts(d.hosts, cal)
  }

  lemma CleanRulesNeverFail(rules: seq<Rule>, at: Moment)
    requires forall r | r in rules :: ValidateRule(r, at.cal) && !StillFails(r)
    ensures !FirstVerdict(rules, at).Fails?
  {
    FirstDecides(OutcomesOf(rules, at), 0);
    var v := FirstVerdict(rules, at);
    if v.Fails? {
      assert rules[v.index] in rules;
      ValidatedRuleFailsIff(rules[v.index], at);
    }
  }

  /** A validated configuration without the three gaps never makes an evaluation fail. */
  lemma CleanConfigNeverFails(conf: Config, name: Option<string>, domain: string, host: string, at: Moment)
    requires CleanConfig(conf, at.cal)
    ensures !Decide(conf, name, domain, host, at).failed
  {
    var h := BestHost(name, host, conf.hosts);
    if h.Some? {
      CleanRulesNeverFail(h.value.rules, at);
    }
    var d := BestDomain(domain, conf.domains);
    if d.Some? && BestHost(name, host, d.value.hosts).Some? {
      CleanRulesNeverFail(BestHost(name, host, d.value.hosts).value.rules, at);
    }
  }
}
