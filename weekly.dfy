/**
 * What `AddressBook.get_birthdays_per_week` computes, stated on the sequence of
 * (name, birthday) entries of the book in insertion order and a given "today".
 *
 * A birthday counts when its occurrence in today's year falls 1 to 7 days after
 * today; a Saturday or Sunday occurrence is greeted on Monday. Names are grouped
 * by weekday, kept in book order inside a day, and printed Monday to Sunday, one
 * line per day that has names. A 29 February birthday in a non-leap year makes
 * the year replacement fail, and with it the whole report.
 *
 * The calendar decides only which day, if any, each entry is greeted on
 * (`Greeting`); grouping and printing work on the resulting tags.
 */
module Weekly {
  import opened Wrappers
  import opened Calendar

  datatype Entry = Entry(name: string, birthday: Option<Date>)

  datatype Report = Report(text: string) | ReplaceFailed

  /** An entry's name and the weekday it is greeted on, if any. */
  datatype Tag = Tag(name: string, day: Option<Weekday>)

  const NO_ONE_MESSAGE := "Noone to greet in the next week!"

  const WORKDAYS: seq<Weekday> := [Monday, Tuesday, Wednesday, Thursday, Friday]

  /** `date.replace(year=year)`: fails when the day does not exist in that year. */
  function ReplaceYear(b: Date, year: int): (r: Option<Date>)
    ensures r.Some? ==> ValidDate(r.value) && r.value == Date(b.day, b.month, year)
    ensures ValidDate(b) && MIN_YEAR <= year <= MAX_YEAR ==>
              (r.None? <==> LeapDay(b) && !IsLeapYear(year))
  {
    var d := Date(b.day, b.month, year);
    if ValidDate(d) then Some(d) else None
  }

  /** This year's occurrence of the entry's birthday, when it has one and the replacement succeeds. */
  function Occurrence(e: Entry, today: Date): Option<Date> {
    if e.birthday.None? then None else ReplaceYear(e.birthday.value, today.year)
  }

  /** The entry has a birthday whose year replacement raises. */
  predicate ReplaceFails(e: Entry, today: Date) {
    e.birthday.Some? && Occurrence(e, today).None?
  }

  /** Some entry's year replacement raises, which ends the report. */
  predicate AnyFails(es: seq<Entry>, today: Date) {
    es != [] && (AnyFails(es[..|es| - 1], today) || ReplaceFails(es[|es| - 1], today))
  }

  /** The entry is greeted: this year's occurrence is 1 to 7 days after today. */
  predicate Qualifies(e: Entry, today: Date)
    requires ValidDate(today)
  {
    var occ := Occurrence(e, today);
    occ.Some? && 1 <= Ordinal(occ.value) - Ordinal(today) <= 7
  }

  /** The weekday of the occurrence, with Saturday and Sunday moved to Monday. */
  function GreetDay(e: Entry, today: Date): Weekday
    requires ValidDate(today) && Qualifies(e, today)
  {
    var w := WeekdayOf(Occurrence(e, today).value);
    if w == Saturday || w == Sunday then Monday else w
  }

  /** The weekday line the entry is listed under, or none. */
  function Greeting(e: Entry, today: Date): (r: Option<Weekday>)
    requires ValidDate(today)
  {
    if Qualifies(e, today) then Some(GreetDay(e, today)) else None
  }

  function Tags(es: seq<Entry>, today: Date): (ts: seq<Tag>)
    requires ValidDate(today)
    ensures |ts| == |es|
  {
    if es == [] then []
    else Tags(es[..|es| - 1], today) + [Tag(es[|es| - 1].name, Greeting(es[|es| - 1], today))]
  }

  /** Each entry gets its own tag, in place. */
  lemma {:induction false} TagAt(es: seq<Entry>, today: Date, i: int)
    requires ValidDate(today) && 0 <= i < |es|
    ensures Tags(es, today)[i] == Tag(es[i].name, Greeting(es[i], today))
  {
    if i < |es| - 1 {
      TagAt(es[..|es| - 1], today, i);
    }
  }

  lemma TagsAt(es: seq<Entry>, today: Date)
    requires ValidDate(today)
    ensures forall i :: 0 <= i < |es| ==> Tags(es, today)[i] == Tag(es[i].name, Greeting(es[i], today))
  {
    forall i | 0 <= i < |es| {
      TagAt(es, today, i);
    }
  }

  /** The names tagged with weekday `w`, in order. */
  function NamesOn(ts: seq<Tag>, w: Weekday): seq<string> {
    if ts == [] then []
    else
      var t := ts[|ts| - 1];
      NamesOn(ts[..|ts| - 1], w) + (if t.day == Some(w) then [t.name] else [])
  }

  /** The names greeted on weekday `w`, in entry order. */
  function Bucket(es: seq<Entry>, today: Date, w: Weekday): seq<string>
    requires ValidDate(today)
  {
    NamesOn(Tags(es, today), w)
  }

  /** `sep.join(names)`. */
  function Join(names: seq<string>, sep: string): string {
    if names == [] then ""
    else if |names| == 1 then names[0]
    else names[0] + sep + Join(names[1..], sep)
  }

  /** Joining one more name puts the separator and that name at the end. */
  lemma {:induction false} JoinSnoc(names: seq<string>, n: string, sep: string)
    requires names != []
    ensures Join(names + [n], sep) == Join(names, sep) + sep + n
  {
    if |names| == 1 {
      assert (names + [n])[1..] == [n];
    } else {
      assert (names + [n])[1..] == names[1..] + [n];
      JoinSnoc(names[1..], n, sep);
    }
  }

  function Line(w: Weekday, names: seq<string>): (s: string)
    ensures |s| > 0 && s[|s| - 1] == '\n'
  {
    DayName(w) + ": " + Join(names, ", ") + "\n"
  }

  /** The line for weekday `w`, or nothing when nobody is greeted that day. */
  function DayLine(ts: seq<Tag>, w: Weekday): string {
    var names := NamesOn(ts, w);
    if names != [] then Line(w, names) else ""
  }

  /** The lines for `days`, in that order, skipping days without names. */
  function RenderDays(days: seq<Weekday>, ts: seq<Tag>): string {
    if days == [] then "" else RenderDays(days[..|days| - 1], ts) + DayLine(ts, days[|days| - 1])
  }

  /** The whole weekly report. */
  function WeeklyReport(es: seq<Entry>, today: Date): Report
    requires ValidDate(today)
  {
    if AnyFails(es, today) then ReplaceFailed
    else
      var text := RenderDays(ALL_DAYS, Tags(es, today));
      Report(if text == "" then NO_ONE_MESSAGE else text)
  }

  // ---------------------------------------------------------------------------
  // Grouping and printing, on tags

  /** A name is tagged with `w` exactly when some tag carries both. */
  lemma {:induction false} InNamesOn(ts: seq<Tag>, w: Weekday, n: string)
    ensures n in NamesOn(ts, w) <==> exists j :: 0 <= j < |ts| && ts[j] == Tag(n, Some(w))
  {
    if ts != [] {
      var init := ts[..|ts| - 1];
      InNamesOn(init, w, n);
      if exists j :: 0 <= j < |ts| && ts[j] == Tag(n, Some(w)) {
        var j :| 0 <= j < |ts| && ts[j] == Tag(n, Some(w));
        if j < |init| {
          assert init[j] == ts[j];
        }
      }
      if exists j :: 0 <= j < |init| && init[j] == Tag(n, Some(w)) {
        var j :| 0 <= j < |init| && init[j] == Tag(n, Some(w));
        assert ts[j] == init[j];
      }
    }
  }

  /** A weekday no tag carries has no names. */
  lemma {:induction false} NobodyOn(ts: seq<Tag>, w: Weekday)
    requires forall j :: 0 <= j < |ts| ==> ts[j].day != Some(w)
    ensures NamesOn(ts, w) == []
  {
    if ts != [] {
      var init := ts[..|ts| - 1];
      assert forall j :: 0 <= j < |init| ==> init[j] == ts[j];
      NobodyOn(init, w);
    }
  }

  lemma {:induction false} NamesOnAppend(ts1: seq<Tag>, ts2: seq<Tag>, w: Weekday)
    ensures NamesOn(ts1 + ts2, w) == NamesOn(ts1, w) + NamesOn(ts2, w)
  {
    if ts2 == [] {
      assert ts1 + ts2 == ts1;
    } else {
      var init := ts2[..|ts2| - 1];
      NamesOnAppend(ts1, init, w);
      var whole := ts1 + ts2;
      var t := ts2[|ts2| - 1];
      var extra := if t.day == Some(w) then [t.name] else [];
      assert whole[..|whole| - 1] == ts1 + init;
      assert whole[|whole| - 1] == t;
      var a, b := NamesOn(ts1, w), NamesOn(init, w);
      assert a + (b + extra) == (a + b) + extra;
    }
  }

  /** Grouping one more tag appends what it contributes. */
  lemma NamesOnExtend(ts: seq<Tag>, i: int, w: Weekday)
    requires 0 <= i < |ts|
    ensures NamesOn(ts[..i + 1], w) == NamesOn(ts[..i], w) + (if ts[i].day == Some(w) then [ts[i].name] else [])
  {
    assert ts[..i + 1][..i] == ts[..i];
  }

  /** `greet` maps exactly the weekdays that have names to those names. */
  ghost predicate GroupedAs(greet: map<Weekday, seq<string>>, ts: seq<Tag>) {
    forall w :: (w in greet <==> NamesOn(ts, w) != []) && (w in greet ==> greet[w] == NamesOn(ts, w))
  }

  /** `greet_dict` after filing one tag: its name is appended to its weekday's list, which is created if absent. */
  function File(greet: map<Weekday, seq<string>>, t: Tag): map<Weekday, seq<string>> {
    if t.day.None? then greet
    else if t.day.value in greet then greet[t.day.value := greet[t.day.value] + [t.name]]
    else greet[t.day.value := [t.name]]
  }

  /** Filing tag `ts[i]` keeps the grouping exact. */
  lemma GroupStep(greet: map<Weekday, seq<string>>, ts: seq<Tag>, i: int)
    requires 0 <= i < |ts| && GroupedAs(greet, ts[..i])
    ensures GroupedAs(File(greet, ts[i]), ts[..i + 1])
  {
    var filed := File(greet, ts[i]);
    forall w ensures (w in filed <==> NamesOn(ts[..i + 1], w) != []) && (w in filed ==> filed[w] == NamesOn(ts[..i + 1], w)) {
      NamesOnExtend(ts, i, w);
    }
  }

  /** Rendering one more weekday appends that day's line. */
  lemma RenderExtend(days: seq<Weekday>, k: int, ts: seq<Tag>)
    requires 0 <= k < |days|
    ensures RenderDays(days[..k + 1], ts) == RenderDays(days[..k], ts) + DayLine(ts, days[k])
  {
    assert days[..k + 1][..k] == days[..k];
  }

  /** No weekday in `days` has names. */
  ghost predicate Silent(days: seq<Weekday>, ts: seq<Tag>) {
    forall i :: 0 <= i < |days| ==> NamesOn(ts, days[i]) == []
  }

  lemma SilentSplit(days: seq<Weekday>, ts: seq<Tag>)
    requires days != []
    ensures Silent(days, ts) <==> Silent(days[..|days| - 1], ts) && NamesOn(ts, days[|days| - 1]) == []
  {
    var init := days[..|days| - 1];
    assert forall i :: 0 <= i < |init| ==> init[i] == days[i];
  }

  lemma EmptyConcat(a: string, b: string)
    ensures a + b == "" <==> a == "" && b == ""
  {
    assert |a + b| == |a| + |b|;
  }

  /** A day's line appears exactly when that day has names. */
  lemma {:induction false} RenderEmpty(days: seq<Weekday>, ts: seq<Tag>)
    ensures RenderDays(days, ts) == "" <==> Silent(days, ts)
  {
    if days != [] {
      var init := days[..|days| - 1];
      var w := days[|days| - 1];
      RenderEmpty(init, ts);
      SilentSplit(days, ts);
      EmptyConcat(RenderDays(init, ts), DayLine(ts, w));
    }
  }

  lemma {:induction false} RenderEndsWithNewline(days: seq<Weekday>, ts: seq<Tag>)
    ensures var s := RenderDays(days, ts); s != "" ==> s[|s| - 1] == '\n'
  {
    if days != [] {
      RenderEndsWithNewline(days[..|days| - 1], ts);
    }
  }

  /** `greet_dict` after filing entry `e`: `None` when its year replacement raises. */
  function Filed(greet: map<Weekday, seq<string>>, e: Entry, today: Date): Option<map<Weekday, seq<string>>>
    requires ValidDate(today)
  {
    if ReplaceFails(e, today) then None else Some(File(greet, Tag(e.name, Greeting(e, today))))
  }

  /** `greet_dict` once the first loop has gone through `es`; `None` once a replacement has raised. */
  function GreetDict(es: seq<Entry>, today: Date): Option<map<Weekday, seq<string>>>
    requires ValidDate(today)
  {
    if es == [] then Some(map[])
    else
      match GreetDict(es[..|es| - 1], today)
      case None => None
      case Some(greet) => Filed(greet, es[|es| - 1], today)
  }

  lemma GreetDictExtend(es: seq<Entry>, i: int, today: Date)
    requires ValidDate(today) && 0 <= i < |es|
    ensures GreetDict(es[..i + 1], today) ==
              match GreetDict(es[..i], today)
              case None => None
              case Some(greet) => Filed(greet, es[i], today)
  {
    assert es[..i + 1][..i] == es[..i];
  }

  /** The first loop gives up exactly when some entry's year replacement raises. */
  lemma {:induction false} GreetDictFails(es: seq<Entry>, today: Date)
    requires ValidDate(today)
    ensures GreetDict(es, today).None? <==> AnyFails(es, today)
  {
    if es != [] {
      GreetDictFails(es[..|es| - 1], today);
    }
  }

  /** Otherwise it ends with each weekday's names, in entry order. */
  lemma {:induction false} GreetDictGroups(es: seq<Entry>, today: Date)
    requires ValidDate(today)
    ensures GreetDict(es, today).Some? ==> GroupedAs(GreetDict(es, today).value, Tags(es, today))
  {
    if es != [] && GreetDict(es, today).Some? {
      var n := |es| - 1;
      var init := es[..n];
      GreetDictGroups(init, today);
      var ts := Tags(es, today);
      TagAt(es, today, n);
      assert ts[..n] == Tags(init, today);
      GroupStep(GreetDict(init, today).value, ts, n);
      assert ts[..n + 1] == ts;
    }
  }

  /** A failure among the first entries is final. */
  lemma GreetDictPrefix(es: seq<Entry>, k: int, today: Date)
    requires ValidDate(today) && 0 <= k <= |es| && GreetDict(es[..k], today).None?
    ensures GreetDict(es, today).None?
  {
    GreetDictFails(es[..k], today);
    AnyFailsPrefix(es, k, today);
    GreetDictFails(es, today);
  }

  /**
   * One turn of the first loop of `get_birthdays_per_week`: an entry greeted in
   * the coming week has its name appended to its weekday's list; `None` when
   * the year replacement raises.
   */
  method FileEntry(greet: map<Weekday, seq<string>>, e: Entry, today: Date) returns (next: Option<map<Weekday, seq<string>>>)
    requires ValidDate(today)
    ensures next == Filed(greet, e, today)
  {
    if e.birthday.None? {
      return Some(greet);
    }
    var occurrence := ReplaceYear(e.birthday.value, today.year);
    if occurrence.None? {
      return None;
    }
    var difference := Ordinal(occurrence.value) - Ordinal(today);
    if 1 <= difference <= 7 {
      var weekday := WeekdayOf(occurrence.value);
      if weekday == Saturday || weekday == Sunday {
        weekday := Monday;
      }
      if weekday in greet {
        return Some(greet[weekday := greet[weekday] + [e.name]]);
      } else {
        return Some(greet[weekday := [e.name]]);
      }
    }
    return Some(greet);
  }

  /**
   * The body of `get_birthdays_per_week` on the book's entries: gathers the
   * greeted names per weekday in one pass, then prints the weekdays in order.
   */
  method BirthdaysPerWeek(es: seq<Entry>, today: Date) returns (report: Report)
    requires ValidDate(today)
    ensures report == WeeklyReport(es, today)
  {
    var grouped := GroupByWeekday(es, today);
    GreetDictFails(es, today);
    if grouped.None? {
      return ReplaceFailed;
    }
    GreetDictGroups(es, today);
    var text := RenderWeek(grouped.value, Tags(es, today));
    if text == "" {
      text := NO_ONE_MESSAGE;
    }
    return Report(text);
  }

  /**
   * The first loop of `get_birthdays_per_week`, over the book's entries in
   * order: files each greeted name under its weekday and gives up when a year
   * replacement raises.
   */
  method GroupByWeekday(es: seq<Entry>, today: Date) returns (grouped: Option<map<Weekday, seq<string>>>)
    requires ValidDate(today)
    ensures grouped == GreetDict(es, today)
  {
    var greet: map<Weekday, seq<string>> := map[];
    var i := 0;
    while i < |es|
      invariant 0 <= i <= |es|
      invariant GreetDict(es[..i], today) == Some(greet)
    {
      GreetDictExtend(es, i, today);
      var next := FileEntry(greet, es[i], today);
      if next.None? {
        GreetDictPrefix(es, i + 1, today);
        return None;
      }
      greet := next.value;
      i := i + 1;
    }
    assert es[..i] == es;
    return Some(greet);
  }

  /**
   * The second loop of `get_birthdays_per_week`: one line per weekday, Monday
   * to Sunday, for the weekdays `greet` has names for.
   */
  method RenderWeek(greet: map<Weekday, seq<string>>, ghost ts: seq<Tag>) returns (text: string)
    requires GroupedAs(greet, ts)
    ensures text == RenderDays(ALL_DAYS, ts)
  {
    text := "";
    var k := 0;
    while k < |ALL_DAYS|
      invariant 0 <= k <= |ALL_DAYS|
      invariant text == RenderDays(ALL_DAYS[..k], ts)
    {
      var weekday := ALL_DAYS[k];
      RenderExtend(ALL_DAYS, k, ts);
      if weekday in greet {
        text := text + Line(weekday, greet[weekday]);
      }
      k := k + 1;
    }
    assert ALL_DAYS[..k] == ALL_DAYS;
  }

  // ---------------------------------------------------------------------------
  // Properties of the report

  /** A name is listed under `w` exactly when some entry with that name qualifies and is greeted on `w`. */
  lemma InBucket(es: seq<Entry>, today: Date, w: Weekday, n: string)
    requires ValidDate(today)
    ensures n in Bucket(es, today, w) <==>
              exists j :: 0 <= j < |es| && es[j].name == n && Qualifies(es[j], today) && GreetDay(es[j], today) == w
  {
    var ts := Tags(es, today);
    InNamesOn(ts, w, n);
    if exists j :: 0 <= j < |ts| && ts[j] == Tag(n, Some(w)) {
      var j :| 0 <= j < |ts| && ts[j] == Tag(n, Some(w));
      TagAt(es, today, j);
    }
    if exists j :: 0 <= j < |es| && es[j].name == n && Qualifies(es[j], today) && GreetDay(es[j], today) == w {
      var j :| 0 <= j < |es| && es[j].name == n && Qualifies(es[j], today) && GreetDay(es[j], today) == w;
      TagAt(es, today, j);
    }
  }

  /** Weekend occurrences move to Monday, so Saturday and Sunday never have names. */
  lemma NoWeekendNames(es: seq<Entry>, today: Date)
    requires ValidDate(today)
    ensures Bucket(es, today, Saturday) == [] && Bucket(es, today, Sunday) == []
  {
    TagsAt(es, today);
    NobodyOn(Tags(es, today), Saturday);
    NobodyOn(Tags(es, today), Sunday);
  }

  /** Grouping keeps book order: the names from earlier entries come first. */
  lemma BucketAppend(es1: seq<Entry>, es2: seq<Entry>, today: Date, w: Weekday)
    requires ValidDate(today)
    ensures Bucket(es1 + es2, today, w) == Bucket(es1, today, w) + Bucket(es2, today, w)
  {
    TagsAt(es1 + es2, today);
    TagsAt(es1, today);
    TagsAt(es2, today);
    assert Tags(es1 + es2, today) == Tags(es1, today) + Tags(es2, today);
    NamesOnAppend(Tags(es1, today), Tags(es2, today), w);
  }

  /** Entries with distinct names are each listed under at most one weekday. */
  lemma OneDayPerName(es: seq<Entry>, today: Date, n: string, w1: Weekday, w2: Weekday)
    requires ValidDate(today)
    requires forall i, j :: 0 <= i < j < |es| ==> es[i].name != es[j].name
    requires n in Bucket(es, today, w1) && n in Bucket(es, today, w2)
    ensures w1 == w2
  {
    InBucket(es, today, w1, n);
    InBucket(es, today, w2, n);
  }

  lemma {:induction false} AnyFailsMeans(es: seq<Entry>, today: Date)
    ensures AnyFails(es, today) <==> exists j :: 0 <= j < |es| && ReplaceFails(es[j], today)
  {
    if es != [] {
      var init := es[..|es| - 1];
      AnyFailsMeans(init, today);
      if exists j :: 0 <= j < |init| && ReplaceFails(init[j], today) {
        var j :| 0 <= j < |init| && ReplaceFails(init[j], today);
        assert es[j] == init[j];
      }
      if exists j :: 0 <= j < |es| && ReplaceFails(es[j], today) {
        var j :| 0 <= j < |es| && ReplaceFails(es[j], today);
        if j < |init| {
          assert init[j] == es[j];
        }
      }
    }
  }

  /** A failure among the first entries is a failure of the whole sequence. */
  lemma AnyFailsPrefix(es: seq<Entry>, k: int, today: Date)
    requires 0 <= k <= |es| && AnyFails(es[..k], today)
    ensures AnyFails(es, today)
  {
    AnyFailsMeans(es[..k], today);
    AnyFailsMeans(es, today);
    var j :| 0 <= j < k && ReplaceFails(es[..k][j], today);
    assert es[j] == es[..k][j];
  }

  /** Only a 29 February birthday in a non-leap year makes the report fail. */
  lemma ReportFails(es: seq<Entry>, today: Date)
    requires ValidDate(today)
    requires forall j :: 0 <= j < |es| && es[j].birthday.Some? ==> ValidDate(es[j].birthday.value)
    ensures WeeklyReport(es, today) == ReplaceFailed <==>
              !IsLeapYear(today.year) &&
              exists j :: 0 <= j < |es| && es[j].birthday.Some? && LeapDay(es[j].birthday.value)
  {
    AnyFailsMeans(es, today);
    if WeeklyReport(es, today) == ReplaceFailed {
      var j :| 0 <= j < |es| && ReplaceFails(es[j], today);
      assert es[j].birthday.Some?;
    }
    if !IsLeapYear(today.year) &&
       exists j :: 0 <= j < |es| && es[j].birthday.Some? && LeapDay(es[j].birthday.value) {
      var j :| 0 <= j < |es| && es[j].birthday.Some? && LeapDay(es[j].birthday.value);
      assert ReplaceFails(es[j], today);
    }
  }

  /** The fixed message is printed exactly when nobody qualifies. */
  lemma NoOneToGreet(es: seq<Entry>, today: Date)
    requires ValidDate(today)
    requires WeeklyReport(es, today) != ReplaceFailed
    ensures WeeklyReport(es, today) == Report(NO_ONE_MESSAGE) <==> forall j :: 0 <= j < |es| ==> !Qualifies(es[j], today)
  {
    var ts := Tags(es, today);
    var text := RenderDays(ALL_DAYS, ts);
    assert WeeklyReport(es, today) == Report(if text == "" then NO_ONE_MESSAGE else text);
    NotTheMessage(ALL_DAYS, ts);
    NothingToRender(ts);
    UntaggedNobody(es, today);
    NobodyUntagged(es, today);
  }

  /** No tag carries a weekday exactly when no entry qualifies: the two directions. */
  lemma UntaggedNobody(es: seq<Entry>, today: Date)
    requires ValidDate(today)
    ensures (forall j :: 0 <= j < |Tags(es, today)| ==> Tags(es, today)[j].day.None?) ==> (forall j :: 0 <= j < |es| ==> !Qualifies(es[j], today))
  {
    if forall j :: 0 <= j < |Tags(es, today)| ==> Tags(es, today)[j].day.None? {
      forall j | 0 <= j < |es| ensures !Qualifies(es[j], today) {
        TagAt(es, today, j);
      }
    }
  }

  lemma NobodyUntagged(es: seq<Entry>, today: Date)
    requires ValidDate(today)
    ensures (forall j :: 0 <= j < |es| ==> !Qualifies(es[j], today)) ==> (forall j :: 0 <= j < |Tags(es, today)| ==> Tags(es, today)[j].day.None?)
  {
    if forall j :: 0 <= j < |es| ==> !Qualifies(es[j], today) {
      forall j | 0 <= j < |Tags(es, today)| ensures Tags(es, today)[j].day.None? {
        TagAt(es, today, j);
      }
    }
  }

  /** A rendered report never reads as the fixed message: its lines end in a newline. */
  lemma NotTheMessage(days: seq<Weekday>, ts: seq<Tag>)
    ensures RenderDays(days, ts) != NO_ONE_MESSAGE
  {
    RenderEndsWithNewline(days, ts);
    assert NO_ONE_MESSAGE[|NO_ONE_MESSAGE| - 1] == '!';
  }

  /** Nothing is printed for the week exactly when no tag carries a weekday. */
  lemma NothingToRender(ts: seq<Tag>)
    ensures RenderDays(ALL_DAYS, ts) == "" <==> forall j :: 0 <= j < |ts| ==> ts[j].day.None?
  {
    if exists j :: 0 <= j < |ts| && ts[j].day.Some? {
      var j :| 0 <= j < |ts| && ts[j].day.Some?;
      SomeLine(ts, j);
    } else {
      NoNamesAnyDay(ts);
      EmptyWeek(ts);
    }
  }

  lemma SomeLine(ts: seq<Tag>, j: int)
    requires 0 <= j < |ts| && ts[j].day.Some?
    ensures RenderDays(ALL_DAYS, ts) != ""
  {
    var w := ts[j].day.value;
    InNamesOn(ts, w, ts[j].name);
    AllDaysListsEvery(w);
    RenderEmpty(ALL_DAYS, ts);
  }

  lemma EmptyWeek(ts: seq<Tag>)
    requires forall w :: NamesOn(ts, w) == []
    ensures RenderDays(ALL_DAYS, ts) == ""
  {
    RenderEmpty(ALL_DAYS, ts);
  }

  lemma NoNamesAnyDay(ts: seq<Tag>)
    requires forall j :: 0 <= j < |ts| ==> ts[j].day.None?
    ensures forall w :: NamesOn(ts, w) == []
  {
    forall w {
      NobodyOn(ts, w);
    }
  }

  /** The report has lines for Monday to Friday only, in that order. */
  lemma WorkdaysOnly(es: seq<Entry>, today: Date)
    requires ValidDate(today)
    ensures RenderDays(ALL_DAYS, Tags(es, today)) == RenderDays(WORKDAYS, Tags(es, today))
  {
    var ts := Tags(es, today);
    NoWeekendNames(es, today);
    assert ALL_DAYS[..6] == WORKDAYS + [Saturday];
    assert (WORKDAYS + [Saturday])[..5] == WORKDAYS;
  }

  /**
   * On Wednesday 5 June 2024, a birthday on Monday 10 June and one on Saturday
   * 8 June are both greeted on Monday, in book order; one on 5 June is not.
   */
  lemma MondayExample()
    ensures WeeklyReport([Entry("Ann", Some(Date(10, 6, 1990))), Entry("Eve", Some(Date(5, 6, 2000))), Entry("Bob", Some(Date(8, 6, 1985)))], Date(5, 6, 2024))
            == Report("Monday: Ann, Bob\n")
  {
    MondayTags();
    MondayRender();
  }

  lemma MondayTags()
    ensures var es := [Entry("Ann", Some(Date(10, 6, 1990))), Entry("Eve", Some(Date(5, 6, 2000))), Entry("Bob", Some(Date(8, 6, 1985)))];
            Tags(es, Date(5, 6, 2024)) == [Tag("Ann", Some(Monday)), Tag("Eve", None), Tag("Bob", Some(Monday))]
            && !AnyFails(es, Date(5, 6, 2024))
  {
    var today := Date(5, 6, 2024);
    var es := [Entry("Ann", Some(Date(10, 6, 1990))), Entry("Eve", Some(Date(5, 6, 2000))), Entry("Bob", Some(Date(8, 6, 1985)))];
    assert Ordinal(today) == 739042;
    assert Ordinal(Date(10, 6, 2024)) == 739047 && WeekdayOf(Date(10, 6, 2024)) == Monday;
    assert Ordinal(Date(8, 6, 2024)) == 739045 && WeekdayOf(Date(8, 6, 2024)) == Saturday;
    TagsAt(es, today);
    AnyFailsMeans(es, today);
  }

  lemma MondayRender()
    ensures RenderDays(ALL_DAYS, [Tag("Ann", Some(Monday)), Tag("Eve", None), Tag("Bob", Some(Monday))]) == "Monday: Ann, Bob\n"
  {
    var ts := [Tag("Ann", Some(Monday)), Tag("Eve", None), Tag("Bob", Some(Monday))];
    MondayNames();
    assert Join(["Ann", "Bob"], ", ") == "Ann, Bob" by {
      assert ["Ann", "Bob"][1..] == ["Bob"];
    }
    assert ALL_DAYS[..1] == [Monday] && RenderDays(ALL_DAYS[..1], ts) == "Monday: Ann, Bob\n";
    OnlyFirstDay(ALL_DAYS, ts, "Monday: Ann, Bob\n");
  }

  lemma MondayNames()
    ensures var ts := [Tag("Ann", Some(Monday)), Tag("Eve", None), Tag("Bob", Some(Monday))];
            NamesOn(ts, Monday) == ["Ann", "Bob"] && forall w :: w != Monday ==> NamesOn(ts, w) == []
  {
    var ts := [Tag("Ann", Some(Monday)), Tag("Eve", None), Tag("Bob", Some(Monday))];
    var t1, t2 := ts[..1], ts[..2];
    assert t1[..0] == [] && NamesOn(t1, Monday) == ["Ann"];
    assert t2[..1] == t1 && NamesOn(t2, Monday) == ["Ann"];
    assert ts[..2] == t2;
    forall w | w != Monday ensures NamesOn(ts, w) == [] {
      NobodyOn(ts, w);
    }
  }

  /** When only the first of `days` has names, the rendering is that day's line. */
  lemma {:induction false} OnlyFirstDay(days: seq<Weekday>, ts: seq<Tag>, text: string)
    requires |days| >= 1 && RenderDays(days[..1], ts) == text
    requires forall k :: 1 <= k < |days| ==> NamesOn(ts, days[k]) == []
    ensures RenderDays(days, ts) == text
  {
    if |days| == 1 {
      assert days[..1] == days;
    } else {
      var init := days[..|days| - 1];
      assert init[..1] == days[..1];
      forall k | 1 <= k < |init| ensures NamesOn(ts, init[k]) == [] {
        assert init[k] == days[k];
      }
      OnlyFirstDay(init, ts, text);
      assert DayLine(ts, days[|days| - 1]) == "";
      assert RenderDays(days, ts) == text + "";
    }
  }
}
