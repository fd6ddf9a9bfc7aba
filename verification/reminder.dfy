/**
 The daily reminder decision of the notification service
 (notification_service.py): given how loading the settings file went, the
 current instant and the stored entries, decide whether to show a desktop
 toast and with which text.

 The settings document is a decoded JSON value; the service trusts it as it
 is and applies defaults key by key where it reads them. Any exception raised
 while deciding is caught by the service and the tick ends without a toast,
 so an exception is modelled as "no toast".
 */
module Reminder {
  import opened Options

  /** A decoded JSON value. Floating-point numbers are not modelled. */
  datatype Json =
    | JNull
    | JBool(b: bool)
    | JInt(i: int)
    | JStr(s: string)
    | JArr(items: seq<Json>)
    | JObj(fields: map<string, Json>)

  /** Python truthiness of a decoded JSON value: the falsy values are exactly null, false, 0, "", [] and {}. */
  function Truthy(j: Json): (b: bool)
    ensures !b <==> j in {JNull, JBool(false), JInt(0), JStr(""), JArr([]), JObj(map[])}
  {
    match j
    case JNull => false
    case JBool(b) => b
    case JInt(i) => i != 0
    case JStr(s) => |s| > 0
    case JArr(items) => |items| > 0
    case JObj(fields) => assert |fields| == 0 ==> fields.Keys == {}; |fields| > 0
  }

  /** How reading `notification_settings.json` went. */
  datatype LoadOutcome = Missing | Malformed | Parsed(value: Json)

  const DefaultSettings: map<string, Json> :=
    map["enabled" := JBool(true), "time" := JStr("15:00"), "timezone" := JStr("EST"), "duration" := JInt(10)]

  /** `load_notification_settings`: the parsed document as it is, or the defaults when the file is missing or unreadable. */
  function LoadSettings(o: LoadOutcome): (settings: Json)
    ensures o.Parsed? ==> settings == o.value
    ensures !o.Parsed? ==> settings == JObj(DefaultSettings)
    ensures !o.Parsed? ==> settings.JObj? && settings.fields.Keys == {"enabled", "time", "timezone", "duration"}
  {
    match o
    case Parsed(v) => v
    case _ => JObj(DefaultSettings)
  }

  /** The fallback document: enabled, a 15:00 reminder, Eastern time, ten-second toasts. */
  lemma DefaultSettingsValues()
    ensures DefaultSettings["enabled"] == JBool(true)
    ensures DefaultSettings["time"] == JStr("15:00")
    ensures DefaultSettings["timezone"] == JStr("EST")
    ensures DefaultSettings["duration"] == JInt(10)
  {
  }

  /** `get_timezone_offset`: the fixed table of US zone codes, Eastern for anything else. */
  function TimezoneOffset(code: string): (hours: int)
    ensures code == "EST" ==> hours == -5
    ensures code == "CST" ==> hours == -6
    ensures code == "MST" ==> hours == -7
    ensures code == "PST" ==> hours == -8
    ensures code !in {"EST", "CST", "MST", "PST"} ==> hours == -5
  {
    var table := map["EST" := -5, "CST" := -6, "MST" := -7, "PST" := -8];
    if code in table then table[code] else -5
  }

  /**
   The offset for whatever JSON value `timezone` holds. A string is looked up;
   a list or object cannot be a dictionary key and raises (None); any other
   value is no key of the table and falls back to Eastern.
   */
  function OffsetOf(tz: Json): (r: Option<int>)
    ensures r.None? <==> tz.JArr? || tz.JObj?
    ensures tz.JStr? ==> r == Some(TimezoneOffset(tz.s))
    ensures !tz.JStr? && r.Some? ==> r.value == -5
  {
    match tz
    case JStr(code) => Some(TimezoneOffset(code))
    case JArr(_) => None
    case JObj(_) => None
    case _ => Some(-5)
  }

  /** `dict.get(key, default)`. */
  function Lookup(fields: map<string, Json>, key: string, default: Json): (v: Json)
    ensures key in fields ==> v == fields[key]
    ensures key !in fields ==> v == default
  {
    if key in fields then fields[key] else default
  }

  /** The calendar day, as a day number, of a UTC instant seen from a fixed offset in hours. */
  function LocalDay(utcSeconds: int, offsetHours: int): (day: int)
    ensures day * 86400 <= utcSeconds + offsetHours * 3600 < (day + 1) * 86400
  {
    (utcSeconds + offsetHours * 3600) / 86400
  }

  /**
   One stored entry as the reminder sees it: its day and whether it carries a
   weight. This is the reminder's view of a `Store.Entry`, so `HasEntryOn` here
   is the same test as `Store.HasEntryOn` on the entry table, read over rows.
   */
  datatype Row = Row(date: int, weighed: bool)

  /** The date of the latest entry with a weight (`order_by(entry_date.desc()).first()`), if any. */
  function LatestWeighed(rows: seq<Row>): (r: Option<int>)
    ensures r.None? <==> forall i :: 0 <= i < |rows| ==> !rows[i].weighed
    ensures r.Some? ==> exists i :: 0 <= i < |rows| && rows[i].weighed && rows[i].date == r.value
    ensures r.Some? ==> forall i :: 0 <= i < |rows| && rows[i].weighed ==> rows[i].date <= r.value
  {
    if |rows| == 0 then None
    else
      var rest := LatestWeighed(rows[1..]);
      assert forall i :: 1 <= i < |rows| ==> rows[i] == rows[1..][i - 1];
      if !rows[0].weighed then rest
      else match rest
        case None => Some(rows[0].date)
        case Some(d) => Some(if d < rows[0].date then rows[0].date else d)
  }

  /** A weight is due when none was ever logged or the latest one is at least seven days old. */
  function WeightNeeded(today: int, rows: seq<Row>): (due: bool)
    ensures due <==> forall i :: 0 <= i < |rows| && rows[i].weighed ==> today - rows[i].date >= 7
  {
    match LatestWeighed(rows)
    case None => true
    case Some(d) => today - d >= 7
  }

  /** The rows carrying a weight, every copy kept. */
  function WeighedRows(rows: seq<Row>): (w: seq<Row>)
    ensures forall r :: r in w <==> r in rows && r.weighed
    ensures forall r: Row :: r.weighed ==> multiset(w)[r] == multiset(rows)[r]
  {
    if |rows| == 0 then []
    else
      assert rows == [rows[0]] + rows[1..];
      (if rows[0].weighed then [rows[0]] else []) + WeighedRows(rows[1..])
  }

  /** Only entries carrying a weight influence whether a weight is due. */
  lemma WeightNeededIgnoresUnweighed(today: int, rows: seq<Row>)
    ensures WeightNeeded(today, rows) == WeightNeeded(today, WeighedRows(rows))
  {
    var w := WeighedRows(rows);
    if WeightNeeded(today, rows) {
      forall i | 0 <= i < |w| && w[i].weighed ensures today - w[i].date >= 7 {
        assert w[i] in rows;
      }
    }
    if WeightNeeded(today, w) {
      forall i | 0 <= i < |rows| && rows[i].weighed ensures today - rows[i].date >= 7 {
        assert rows[i] in w;
      }
    }
  }

  /** The seven-day threshold is inclusive: seven days after the latest weight it is due, six days after it is not. */
  lemma WeightCadence(today: int, rows: seq<Row>)
    ensures LatestWeighed(rows) == Some(today - 7) ==> WeightNeeded(today, rows)
    ensures LatestWeighed(rows) == Some(today - 6) ==> !WeightNeeded(today, rows)
    ensures LatestWeighed(rows).None? ==> WeightNeeded(today, rows)
    ensures WeightNeeded(today, [Row(today - 7, true)]) && !WeightNeeded(today, [Row(today - 6, true)])
  {
    assert [Row(today - 6, true)][0].weighed;
  }

  /** Some entry is dated `today` (`filter_by(entry_date=today).first()` finds a row). */
  function HasEntryOn(rows: seq<Row>, today: int): (b: bool)
    ensures b <==> today in (set r | r in rows :: r.date)
  {
    exists i :: 0 <= i < |rows| && rows[i].date == today
  }

  const MoodMessage := "You haven't logged your mood today!"
  const WeightAddendum := " Also, it's time to log your weekly weight."
  const WeightMessage := "It's time to log your weekly weight!"
  const Title := "Mood Tracker Reminder"
  const Suffix := " Open your browser to add your entry."

  /** The four-way choice of reminder text; empty means nothing to remind. */
  function Message(entryMissing: bool, weightDue: bool): (m: string)
    ensures m == "" <==> !entryMissing && !weightDue
    ensures entryMissing && weightDue ==> m == MoodMessage + WeightAddendum
    ensures entryMissing && !weightDue ==> m == MoodMessage
    ensures !entryMissing && weightDue ==> m == WeightMessage
  {
    var m := if entryMissing then MoodMessage else "";
    if entryMissing then (if weightDue then m + WeightAddendum else m)
    else if weightDue then WeightMessage
    else m
  }

  datatype Toast = Toast(title: string, body: string, duration: Json)

  /**
   `check_today_entry`: the toast to show this tick, if any. `None` covers a
   disabled service, nothing to remind and every caught exception (a settings
   document that is not an object, or an unhashable timezone value).
   */
  function CheckTodayEntry(load: LoadOutcome, utcSeconds: int, rows: seq<Row>): (toast: Option<Toast>)
    ensures toast.Some? ==>
      && LoadSettings(load).JObj?
      && Truthy(Lookup(LoadSettings(load).fields, "enabled", JBool(true)))
      && toast.value.title == Title
      && toast.value.duration == Lookup(LoadSettings(load).fields, "duration", JInt(10))
      && (exists m :: m != "" && toast.value.body == m + Suffix)
    ensures !LoadSettings(load).JObj? ==> toast.None?
    ensures LoadSettings(load).JObj? && !Truthy(Lookup(LoadSettings(load).fields, "enabled", JBool(true))) ==> toast.None?
    ensures LoadSettings(load).JObj? && OffsetOf(Lookup(LoadSettings(load).fields, "timezone", JStr("EST"))).None? ==> toast.None?
  {
    var settings := LoadSettings(load);
    if !settings.JObj? then None
    else
      var fields := settings.fields;
      if !Truthy(Lookup(fields, "enabled", JBool(true))) then None
      else
        match OffsetOf(Lookup(fields, "timezone", JStr("EST")))
        case None => None
        case Some(offset) =>
          var today := LocalDay(utcSeconds, offset);
          var message := Message(!HasEntryOn(rows, today), WeightNeeded(today, rows));
          if message == "" then None
          else Some(Toast(Title, message + Suffix, Lookup(fields, "duration", JInt(10))))
  }

  /**
   The decision, stated against the local day: with an enabled object settings
   document whose timezone is hashable, a toast appears exactly when today's
   entry is missing or a weight is due, and its body is the chosen message.
   */
  lemma CheckTodayEntryDecides(fields: map<string, Json>, utcSeconds: int, rows: seq<Row>)
    requires Truthy(Lookup(fields, "enabled", JBool(true)))
    requires OffsetOf(Lookup(fields, "timezone", JStr("EST"))).Some?
    ensures var today := LocalDay(utcSeconds, OffsetOf(Lookup(fields, "timezone", JStr("EST"))).value);
      var missing := !HasEntryOn(rows, today);
      var due := WeightNeeded(today, rows);
      var toast := CheckTodayEntry(Parsed(JObj(fields)), utcSeconds, rows);
      && (toast.Some? <==> missing || due)
      && (toast.Some? ==> toast.value == Toast(Title, Message(missing, due) + Suffix, Lookup(fields, "duration", JInt(10))))
  {
  }

  /** A missing or malformed settings file behaves as enabled, Eastern time, ten-second toasts. */
  lemma DefaultsApply(load: LoadOutcome, utcSeconds: int, rows: seq<Row>)
    requires load.Missing? || load.Malformed?
    ensures var today := LocalDay(utcSeconds, -5);
      var missing := !HasEntryOn(rows, today);
      var due := WeightNeeded(today, rows);
      var toast := CheckTodayEntry(load, utcSeconds, rows);
      && (toast.Some? <==> missing || due)
      && (toast.Some? ==> toast.value == Toast(Title, Message(missing, due) + Suffix, JInt(10)))
  {
    assert LoadSettings(load) == JObj(DefaultSettings);
    assert Lookup(DefaultSettings, "timezone", JStr("EST")) == JStr("EST");
  }

  /** A settings object without `enabled` counts as enabled; one with a false `enabled` never toasts. */
  lemma EnabledFlag(fields: map<string, Json>, utcSeconds: int, rows: seq<Row>)
    ensures "enabled" !in fields ==> Truthy(Lookup(fields, "enabled", JBool(true)))
    ensures "enabled" in fields && !Truthy(fields["enabled"]) ==>
      CheckTodayEntry(Parsed(JObj(fields)), utcSeconds, rows).None?
  {
  }

  /** The scenario of a missing entry with the last weight ten days ago: the combined reminder. */
  lemma CombinedReminderScenario(utcSeconds: int)
    ensures var today := LocalDay(utcSeconds, -5);
      CheckTodayEntry(Parsed(JObj(DefaultSettings)), utcSeconds, [Row(today - 10, true)])
        == Some(Toast(Title, MoodMessage + WeightAddendum + Suffix, JInt(10)))
  {
    var today := LocalDay(utcSeconds, -5);
    var rows := [Row(today - 10, true)];
    assert !HasEntryOn(rows, today);
    assert WeightNeeded(today, rows);
  }
}
