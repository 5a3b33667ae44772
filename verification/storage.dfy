/**
  Persistence: the browser key-value store under nine fixed keys, the
  typed getters with their defaults, the setters, and the backup document
  with its validating restore.

  The store is a map from key to text. JSON text is not modelled: `parse`
  stands for `JSON.parse` (`None` when it throws), `stringify` for
  `JSON.stringify`, `render` for `String(value)` on a non-string value,
  `parseInt`/`parseFloat` for the number parsers (`None` for NaN), and
  `fits` says whether a `setItem` succeeds (it throws when the quota is
  exceeded). All of them are parameters.
 */
module Storage {
  import opened Types

  const SubjectsKey := "study-subjects"
  const SessionsKey := "study-sessions"
  const DailyGoalKey := "study-daily-goal"
  const PrimaryColorKey := "study-primary-color"
  const ColorModeKey := "study-color-mode"
  const BackgroundModeKey := "study-background-mode"
  const VolumeKey := "study-volume"
  const NotificationsKey := "study-notifications-enabled"
  const LibraryKey := "study-library-books"

  const StorageKeys: set<string> := {
    SubjectsKey, SessionsKey, DailyGoalKey, PrimaryColorKey, ColorModeKey,
    BackgroundModeKey, VolumeKey, NotificationsKey, LibraryKey
  }

  type Store = map<string, string>

  /** A parsed JSON value. Numbers are exact; NaN does not occur in JSON text. */
  datatype Json =
    | JNull
    | JBool(b: bool)
    | JNum(n: real)
    | JStr(s: string)
    | JArr(items: seq<Json>)
    | JObj(fields: map<string, Json>)

  /** A property read, `undefined` (`None`) unless the value is an object with that field. */
  function Field(doc: Json, name: string): Option<Json> {
    if doc.JObj? && name in doc.fields then Some(doc.fields[name]) else None
  }

  /** JavaScript truthiness; `undefined` is falsy. */
  predicate Truthy(v: Option<Json>) {
    match v
    case None => false
    case Some(j) =>
      match j
      case JNull => false
      case JBool(b) => b
      case JNum(n) => n != 0.0
      case JStr(s) => s != ""
      case JArr(_) => true
      case JObj(_) => true
  }

  predicate IsArray(v: Option<Json>) {
    v.Some? && v.value.JArr?
  }

  /** `String(value)`: the text itself for a string, `render` otherwise. */
  function ValueText(j: Json, render: Json -> string): string {
    if j.JStr? then j.s else render(j)
  }

  /** `localStorage.getItem(key) || fallback`: a missing or empty entry gives the fallback. */
  function ItemOr(store: Store, key: string, fallback: string): (text: string)
    ensures key in store && store[key] != "" ==> text == store[key]
    ensures key !in store || store[key] == "" ==> text == fallback
  {
    if key in store && store[key] != "" then store[key] else fallback
  }

  /** The entry under `key` is as it was: absent if it was absent. */
  ghost predicate Unchanged(before: Store, after: Store, key: string) {
    (key in after <==> key in before) && (key in before ==> after[key] == before[key])
  }

  // ---------------------------------------------------------------- setters

  /** `localStorage.setItem` inside the setters' `try`: a write that does not
      fit is swallowed and leaves the store as it was. */
  function SetItem(store: Store, key: string, value: string, fits: (Store, string, string) -> bool)
    : (after: Store)
    ensures fits(store, key, value) ==> key in after && after[key] == value
    ensures !fits(store, key, value) ==> after == store
    ensures forall k :: k != key ==> Unchanged(store, after, k)
  {
    if fits(store, key, value) then store[key := value] else store
  }

  /** `saveDailyGoal`: the number as text under its key; nothing else changes. */
  function SaveDailyGoal(store: Store, minutes: int, render: Json -> string, fits: (Store, string, string) -> bool): (after: Store)
    ensures fits(store, DailyGoalKey, render(JNum(minutes as real)))
      ==> DailyGoalKey in after && after[DailyGoalKey] == render(JNum(minutes as real))
    ensures !fits(store, DailyGoalKey, render(JNum(minutes as real))) ==> after == store
    ensures forall k :: k != DailyGoalKey ==> Unchanged(store, after, k)
  {
    SetItem(store, DailyGoalKey, render(JNum(minutes as real)), fits)
  }

  /** `savePrimaryColor`: the getter reads the colour back, or white for an
      empty one; nothing else changes. */
  function SavePrimaryColor(store: Store, color: string, fits: (Store, string, string) -> bool): (after: Store)
    ensures fits(store, PrimaryColorKey, color) && color != "" ==> GetPrimaryColor(after) == color
    ensures fits(store, PrimaryColorKey, color) && color == "" ==> GetPrimaryColor(after) == "#ffffff"
    ensures !fits(store, PrimaryColorKey, color) ==> after == store
    ensures forall k :: k != PrimaryColorKey ==> Unchanged(store, after, k)
  {
    SetItem(store, PrimaryColorKey, color, fits)
  }

  function ColorModeName(mode: ColorMode): string {
    match mode
    case Vibrant => "vibrant"
    case Monochrome => "monochrome"
  }

  /** `saveColorMode`: the getter reads the mode back; nothing else changes. */
  function SaveColorMode(store: Store, mode: ColorMode, fits: (Store, string, string) -> bool): (after: Store)
    ensures fits(store, ColorModeKey, ColorModeName(mode)) ==> GetColorMode(after) == mode
    ensures !fits(store, ColorModeKey, ColorModeName(mode)) ==> after == store
    ensures forall k :: k != ColorModeKey ==> Unchanged(store, after, k)
  {
    SetItem(store, ColorModeKey, ColorModeName(mode), fits)
  }

  const BackgroundNames: seq<string> :=
    ["default", "grid", "dots", "aurora", "solid", "stars", "ocean", "sunset"]

  const BackgroundModes: seq<BackgroundMode> :=
    [Default, Grid, Dots, Aurora, Solid, Stars, Ocean, Sunset]

  function BackgroundName(mode: BackgroundMode): (name: string)
    ensures name in BackgroundNames
  {
    match mode
    case Default => "default"
    case Grid => "grid"
    case Dots => "dots"
    case Aurora => "aurora"
    case Solid => "solid"
    case Stars => "stars"
    case Ocean => "ocean"
    case Sunset => "sunset"
  }

  /** `saveBackgroundMode`: the getter reads the mode back; nothing else changes. */
  function SaveBackgroundMode(store: Store, mode: BackgroundMode, fits: (Store, string, string) -> bool): (after: Store)
    ensures fits(store, BackgroundModeKey, BackgroundName(mode)) ==> GetBackgroundMode(after) == mode
    ensures !fits(store, BackgroundModeKey, BackgroundName(mode)) ==> after == store
    ensures forall k :: k != BackgroundModeKey ==> Unchanged(store, after, k)
  {
    var after := SetItem(store, BackgroundModeKey, BackgroundName(mode), fits);
    assert fits(store, BackgroundModeKey, BackgroundName(mode)) ==> GetBackgroundMode(after) == mode by {
      if fits(store, BackgroundModeKey, BackgroundName(mode)) {
        BackgroundNameInjective(GetBackgroundMode(after), mode);
      }
    }
    after
  }

  /** `saveVolume`: the number as text under its key; nothing else changes. */
  function SaveVolume(store: Store, volume: real, render: Json -> string, fits: (Store, string, string) -> bool): (after: Store)
    ensures fits(store, VolumeKey, render(JNum(volume)))
      ==> VolumeKey in after && after[VolumeKey] == render(JNum(volume))
    ensures !fits(store, VolumeKey, render(JNum(volume))) ==> after == store
    ensures forall k :: k != VolumeKey ==> Unchanged(store, after, k)
  {
    SetItem(store, VolumeKey, render(JNum(volume)), fits)
  }

  /** `saveNotificationsEnabled`: the flag as JSON text; nothing else changes. */
  function SaveNotifications(store: Store, enabled: bool, stringify: Json -> string, fits: (Store, string, string) -> bool): (after: Store)
    ensures fits(store, NotificationsKey, stringify(JBool(enabled)))
      ==> NotificationsKey in after && after[NotificationsKey] == stringify(JBool(enabled))
    ensures !fits(store, NotificationsKey, stringify(JBool(enabled))) ==> after == store
    ensures forall k :: k != NotificationsKey ==> Unchanged(store, after, k)
  {
    SetItem(store, NotificationsKey, stringify(JBool(enabled)), fits)
  }

  /** `saveSubjects`, `saveSessions` and `saveBooks`: the list as JSON text. */
  function SaveList(store: Store, key: string, list: Json, stringify: Json -> string, fits: (Store, string, string) -> bool): (after: Store)
    ensures fits(store, key, stringify(list)) ==> key in after && after[key] == stringify(list)
    ensures !fits(store, key, stringify(list)) ==> after == store
    ensures forall k :: k != key ==> Unchanged(store, after, k)
  {
    SetItem(store, key, stringify(list), fits)
  }

  /** `clearAll`: every entry of the origin's storage goes, the app's and any other. */
  function ClearAll(store: Store): (after: Store)
    ensures forall k :: k !in after
  {
    map[]
  }

  // ---------------------------------------------------------------- getters

  /** `getSubjects`, `getSessions`, `getBooks`: `data ? JSON.parse(data) : []`,
      and `[]` when parsing throws. The parsed value is not checked to be a
      list. */
  function GetList(store: Store, key: string, parse: string -> Option<Json>): (v: Json)
    ensures key !in store || store[key] == "" ==> v == JArr([])
    ensures key in store && store[key] != "" && parse(store[key]).None? ==> v == JArr([])
    ensures key in store && store[key] != "" && parse(store[key]).Some? ==> v == parse(store[key]).value
  {
    if key in store && store[key] != "" then
      match parse(store[key])
      case Some(j) => j
      case None => JArr([])
    else JArr([])
  }

  /** `getDailyGoal`: `parseInt` of a non-empty entry (`None` is NaN), else 120. */
  function GetDailyGoal(store: Store, parseInt: string -> Option<int>): (goal: Option<int>)
    ensures DailyGoalKey !in store || store[DailyGoalKey] == "" ==> goal == Some(120)
    ensures DailyGoalKey in store && store[DailyGoalKey] != "" ==> goal == parseInt(store[DailyGoalKey])
  {
    if DailyGoalKey in store && store[DailyGoalKey] != "" then parseInt(store[DailyGoalKey]) else Some(120)
  }

  /** `getPrimaryColor`: the entry unless missing or empty, else white. */
  function GetPrimaryColor(store: Store): (color: string)
    ensures color != ""
    ensures color == "#ffffff" || (PrimaryColorKey in store && color == store[PrimaryColorKey])
  {
    ItemOr(store, PrimaryColorKey, "#ffffff")
  }

  /** `getColorMode`: only the exact names are recognised. */
  function GetColorMode(store: Store): (mode: ColorMode)
    ensures mode == Monochrome <==> ColorModeKey in store && store[ColorModeKey] == "monochrome"
  {
    if ColorModeKey in store && store[ColorModeKey] == "monochrome" then Monochrome else Vibrant
  }

  /** `getBackgroundMode`: one of the eight known names, else the default. */
  function GetBackgroundMode(store: Store): (mode: BackgroundMode)
    ensures BackgroundModeKey in store && store[BackgroundModeKey] in BackgroundNames
      ==> BackgroundName(mode) == store[BackgroundModeKey]
    ensures !(BackgroundModeKey in store && store[BackgroundModeKey] in BackgroundNames)
      ==> mode == Default
  {
    if BackgroundModeKey in store && store[BackgroundModeKey] in BackgroundNames then
      var k := IndexOfName(store[BackgroundModeKey]);
      BackgroundModes[k]
    else Default
  }

  function IndexOfName(name: string): (k: nat)
    requires name in BackgroundNames
    ensures k < |BackgroundModes| && BackgroundName(BackgroundModes[k]) == name
  {
    if name == "default" then 0 else if name == "grid" then 1 else if name == "dots" then 2
    else if name == "aurora" then 3 else if name == "solid" then 4 else if name == "stars" then 5
    else if name == "ocean" then 6 else 7
  }

  /** `getVolume`: `parseFloat` of a non-empty entry (`None` is NaN), else one half. */
  function GetVolume(store: Store, parseFloat: string -> Option<real>): (volume: Option<real>)
    ensures VolumeKey !in store || store[VolumeKey] == "" ==> volume == Some(0.5)
    ensures VolumeKey in store && store[VolumeKey] != "" ==> volume == parseFloat(store[VolumeKey])
  {
    if VolumeKey in store && store[VolumeKey] != "" then parseFloat(store[VolumeKey]) else Some(0.5)
  }

  /** `getNotificationsEnabled`: only a missing entry (not an empty one)
      gives the default; parsing that throws gives it too. */
  function GetNotifications(store: Store, parse: string -> Option<Json>): (v: Json)
    ensures NotificationsKey !in store ==> v == JBool(true)
    ensures NotificationsKey in store && parse(store[NotificationsKey]).None? ==> v == JBool(true)
    ensures NotificationsKey in store && parse(store[NotificationsKey]).Some? ==> v == parse(store[NotificationsKey]).value
  {
    if NotificationsKey in store then
      match parse(store[NotificationsKey])
      case Some(j) => j
      case None => JBool(true)
    else JBool(true)
  }

  /** Every setting a setter stores is read back by its getter (when the
      write fits and the number and JSON text read back as written). */
  lemma SettingsRoundTrip(store: Store, color: string, mode: ColorMode, bg: BackgroundMode,
                          enabled: bool, minutes: int, volume: real,
                          parse: string -> Option<Json>, stringify: Json -> string,
                          render: Json -> string, parseInt: string -> Option<int>,
                          parseFloat: string -> Option<real>)
    requires color != ""
    requires render(JNum(minutes as real)) != "" && parseInt(render(JNum(minutes as real))) == Some(minutes)
    requires render(JNum(volume)) != "" && parseFloat(render(JNum(volume))) == Some(volume)
    requires parse(stringify(JBool(enabled))) == Some(JBool(enabled))
    ensures var always := (s: Store, k: string, v: string) => true;
      && GetPrimaryColor(SavePrimaryColor(store, color, always)) == color
      && GetColorMode(SaveColorMode(store, mode, always)) == mode
      && GetBackgroundMode(SaveBackgroundMode(store, bg, always)) == bg
      && GetNotifications(SaveNotifications(store, enabled, stringify, always), parse) == JBool(enabled)
      && GetDailyGoal(SaveDailyGoal(store, minutes, render, always), parseInt) == Some(minutes)
      && GetVolume(SaveVolume(store, volume, render, always), parseFloat) == Some(volume)
  {
    var always := (s: Store, k: string, v: string) => true;
    var after := SaveBackgroundMode(store, bg, always);
    assert after[BackgroundModeKey] == BackgroundName(bg);
    BackgroundNameInjective(GetBackgroundMode(after), bg);
  }

  /** After `clearAll` every getter reads its default (the notification
      flag's default needs no parsing: the entry is missing). */
  lemma ClearAllGivesDefaults(store: Store, parse: string -> Option<Json>,
                              parseInt: string -> Option<int>, parseFloat: string -> Option<real>)
    ensures var e := ClearAll(store);
      && GetList(e, SubjectsKey, parse) == JArr([])
      && GetList(e, SessionsKey, parse) == JArr([])
      && GetList(e, LibraryKey, parse) == JArr([])
      && GetDailyGoal(e, parseInt) == Some(120)
      && GetPrimaryColor(e) == "#ffffff"
      && GetColorMode(e) == Vibrant
      && GetBackgroundMode(e) == Default
      && GetVolume(e, parseFloat) == Some(0.5)
      && GetNotifications(e, parse) == JBool(true)
  {
  }

  lemma BackgroundNameInjective(a: BackgroundMode, b: BackgroundMode)
    requires BackgroundName(a) == BackgroundName(b)
    ensures a == b
  {
  }

  // ---------------------------------------------------------------- backup

  /** `createBackup`: the three lists parsed from their entries (`[]` when
      missing or empty), the six settings as their stored text or default
      text, the time of the backup and version 1. `None` when one of the
      stored lists does not parse: the original lets that exception escape. */
  function CreateBackup(store: Store, parse: string -> Option<Json>, now: string): (doc: Option<Json>)
    ensures doc.Some? <==>
      parse(ItemOr(store, SubjectsKey, "[]")).Some?
      && parse(ItemOr(store, SessionsKey, "[]")).Some?
      && parse(ItemOr(store, LibraryKey, "[]")).Some?
    ensures doc.Some? ==>
      && Field(doc.value, "subjects") == parse(ItemOr(store, SubjectsKey, "[]"))
      && Field(doc.value, "sessions") == parse(ItemOr(store, SessionsKey, "[]"))
      && Field(doc.value, "library") == parse(ItemOr(store, LibraryKey, "[]"))
      && Field(doc.value, "primaryColor") == Some(JStr(ItemOr(store, PrimaryColorKey, "#ffffff")))
      && Field(doc.value, "colorMode") == Some(JStr(ItemOr(store, ColorModeKey, "vibrant")))
      && Field(doc.value, "backgroundMode") == Some(JStr(ItemOr(store, BackgroundModeKey, "default")))
      && Field(doc.value, "dailyGoal") == Some(JStr(ItemOr(store, DailyGoalKey, "120")))
      && Field(doc.value, "volume") == Some(JStr(ItemOr(store, VolumeKey, "0.5")))
      && Field(doc.value, "notificationsEnabled") == Some(JStr(ItemOr(store, NotificationsKey, "true")))
  {
    var subjects := parse(ItemOr(store, SubjectsKey, "[]"));
    var sessions := parse(ItemOr(store, SessionsKey, "[]"));
    var library := parse(ItemOr(store, LibraryKey, "[]"));
    if subjects.None? || sessions.None? || library.None? then None
    else
      var goal, color := JStr(ItemOr(store, DailyGoalKey, "120")), JStr(ItemOr(store, PrimaryColorKey, "#ffffff"));
      var mode, background := JStr(ItemOr(store, ColorModeKey, "vibrant")), JStr(ItemOr(store, BackgroundModeKey, "default"));
      var volume, notify := JStr(ItemOr(store, VolumeKey, "0.5")), JStr(ItemOr(store, NotificationsKey, "true"));
      BackupListFields(subjects.value, sessions.value, goal, color, mode, background, volume, notify,
                       library.value, JStr(now));
      BackupStyleFields(subjects.value, sessions.value, goal, color, mode, background, volume, notify,
                       library.value, JStr(now));
      BackupOtherFields(subjects.value, sessions.value, goal, color, mode, background, volume, notify,
                       library.value, JStr(now));
      Some(BackupOf(store, parse, now))
  }

  /** The backup object of a store whose three lists parse. */
  function BackupOf(store: Store, parse: string -> Option<Json>, now: string): Json
    requires parse(ItemOr(store, SubjectsKey, "[]")).Some?
    requires parse(ItemOr(store, SessionsKey, "[]")).Some?
    requires parse(ItemOr(store, LibraryKey, "[]")).Some?
  {
    BackupObject(
      parse(ItemOr(store, SubjectsKey, "[]")).value, parse(ItemOr(store, SessionsKey, "[]")).value,
      JStr(ItemOr(store, DailyGoalKey, "120")), JStr(ItemOr(store, PrimaryColorKey, "#ffffff")),
      JStr(ItemOr(store, ColorModeKey, "vibrant")), JStr(ItemOr(store, BackgroundModeKey, "default")),
      JStr(ItemOr(store, VolumeKey, "0.5")), JStr(ItemOr(store, NotificationsKey, "true")),
      parse(ItemOr(store, LibraryKey, "[]")).value, JStr(now))
  }

  /** The stored list (or `[]`) parses to an array whose JSON text parses
      back to the same array. */
  predicate ListReadsBack(store: Store, key: string, parse: string -> Option<Json>, stringify: Json -> string) {
    var v := parse(ItemOr(store, key, "[]"));
    IsArray(v) && parse(stringify(v.value)) == v
  }

  /** The backup object with its eleven fields in the original's order. */
  function BackupObject(subjects: Json, sessions: Json, goal: Json, color: Json, mode: Json, background: Json,
                        volume: Json, notify: Json, library: Json, stamp: Json): Json
  {
    JObj(map[
      "subjects" := subjects,
      "sessions" := sessions,
      "dailyGoal" := goal,
      "primaryColor" := color,
      "colorMode" := mode,
      "backgroundMode" := background,
      "volume" := volume,
      "notificationsEnabled" := notify,
      "library" := library,
      "timestamp" := stamp,
      "version" := JNum(1.0)])
  }

  /** Each field of the backup object reads back what was put in it: the
      lists, the colour settings, and the other settings. */
  lemma BackupListFields(subjects: Json, sessions: Json, goal: Json, color: Json, mode: Json, background: Json,
                     volume: Json, notify: Json, library: Json, stamp: Json)
    ensures var doc := BackupObject(subjects, sessions, goal, color, mode, background, volume, notify,
                                    library, stamp);
      && Field(doc, "subjects") == Some(subjects) && Field(doc, "sessions") == Some(sessions)
      && Field(doc, "library") == Some(library)
  {
  }

  lemma BackupStyleFields(subjects: Json, sessions: Json, goal: Json, color: Json, mode: Json, background: Json,
                     volume: Json, notify: Json, library: Json, stamp: Json)
    ensures var doc := BackupObject(subjects, sessions, goal, color, mode, background, volume, notify,
                                    library, stamp);
      && Field(doc, "primaryColor") == Some(color) && Field(doc, "colorMode") == Some(mode)
      && Field(doc, "backgroundMode") == Some(background)
  {
  }

  lemma BackupOtherFields(subjects: Json, sessions: Json, goal: Json, color: Json, mode: Json, background: Json,
                     volume: Json, notify: Json, library: Json, stamp: Json)
    ensures var doc := BackupObject(subjects, sessions, goal, color, mode, background, volume, notify,
                                    library, stamp);
      && Field(doc, "dailyGoal") == Some(goal) && Field(doc, "volume") == Some(volume)
      && Field(doc, "notificationsEnabled") == Some(notify)
  {
  }

  /** The six settings a backup carries: document field and store key. */
  const Settings: seq<(string, string)> := [
    ("dailyGoal", DailyGoalKey), ("primaryColor", PrimaryColorKey),
    ("colorMode", ColorModeKey), ("backgroundMode", BackgroundModeKey),
    ("volume", VolumeKey), ("notificationsEnabled", NotificationsKey)
  ]

  /** The checks `restoreBackup` makes before writing anything: both lists
      present as lists, and a library, when given at all, a list too. */
  function Acceptable(doc: Json): (ok: bool)
    ensures !doc.JObj? ==> !ok
    ensures ok ==> Field(doc, "subjects").Some? && Field(doc, "subjects").value.JArr?
    ensures ok ==> Field(doc, "sessions").Some? && Field(doc, "sessions").value.JArr?
    ensures ok && Field(doc, "library").Some? ==>
      (Field(doc, "library").value.JArr?
       || Field(doc, "library").value in {JNull, JBool(false), JNum(0.0), JStr("")})
    ensures Field(doc, "library").None? ==>
      (ok <==> IsArray(Field(doc, "subjects")) && IsArray(Field(doc, "sessions")))
  {
    && IsArray(Field(doc, "subjects"))
    && IsArray(Field(doc, "sessions"))
    && (Truthy(Field(doc, "library")) ==> IsArray(Field(doc, "library")))
  }

  /** One `setItem` the restore may make; `None` is a skipped one. */
  type Write = Option<(string, string)>

  predicate DistinctKeys(ws: seq<Write>) {
    forall i, j :: 0 <= i < j < |ws| && ws[i].Some? && ws[j].Some? ==> ws[i].value.0 != ws[j].value.0
  }

  /** No write goes to `key`. */
  predicate NotWritten(ws: seq<Write>, key: string) {
    forall i :: 0 <= i < |ws| && ws[i].Some? ==> ws[i].value.0 != key
  }

  /** The key each of the restore's nine writes goes to. */
  const SlotKeys: seq<string> := [
    SubjectsKey, SessionsKey, DailyGoalKey, PrimaryColorKey, ColorModeKey,
    BackgroundModeKey, VolumeKey, NotificationsKey, LibraryKey
  ]

  /** A setting's write: only a truthy value is written. */
  function SettingWrite(doc: Json, setting: (string, string), render: Json -> string): Write {
    if Truthy(Field(doc, setting.0)) then Some((setting.1, ValueText(Field(doc, setting.0).value, render)))
    else None
  }

  /** The writes `restoreBackup` makes, in order, once the document passed
      the checks: the two lists, the six settings, the library. */
  function Writes(doc: Json, stringify: Json -> string, render: Json -> string): (ws: seq<Write>)
    requires Acceptable(doc)
    ensures |ws| == 9
    ensures forall i :: 0 <= i < 9 && ws[i].Some? ==> ws[i].value.0 == SlotKeys[i]
    ensures ws[0].Some? && ws[1].Some? && ws[8].Some?
    ensures forall s :: 0 <= s < 6 ==> ws[s + 2] == SettingWrite(doc, Settings[s], render)
  {
    var library := Field(doc, "library");
    [Some((SubjectsKey, stringify(Field(doc, "subjects").value))),
     Some((SessionsKey, stringify(Field(doc, "sessions").value))),
     SettingWrite(doc, Settings[0], render), SettingWrite(doc, Settings[1], render),
     SettingWrite(doc, Settings[2], render), SettingWrite(doc, Settings[3], render),
     SettingWrite(doc, Settings[4], render), SettingWrite(doc, Settings[5], render),
     Some((LibraryKey, if Truthy(library) then stringify(library.value) else "[]"))]
  }

  datatype Outcome = Outcome(ok: bool, store: Store)

  /** Performs the writes in order; the first that does not fit throws, which
      ends the restore with the earlier writes already made. */
  function ApplyWrites(store: Store, writes: seq<Write>, fits: (Store, string, string) -> bool)
    : (r: Outcome)
    ensures forall k :: NotWritten(writes, k) ==> Unchanged(store, r.store, k)
    ensures r.ok && DistinctKeys(writes) ==> forall i :: 0 <= i < |writes| && writes[i].Some? ==>
      writes[i].value.0 in r.store && r.store[writes[i].value.0] == writes[i].value.1
    ensures (forall st, k, v :: fits(st, k, v)) ==> r.ok
    decreases |writes|
  {
    if |writes| == 0 then Outcome(true, store)
    else
      var rest := writes[1..];
      assert forall i :: 1 <= i < |writes| ==> writes[i] == rest[i - 1];
      assert DistinctKeys(writes) ==> DistinctKeys(rest);
      match writes[0]
      case None => ApplyWrites(store, rest, fits)
      case Some((key, value)) =>
        if fits(store, key, value) then
          var r := ApplyWrites(store[key := value], rest, fits);
          ApplyWritesStep(store, key, value, writes, r.store);
          r
        else Outcome(false, store)
  }

  /** The step from the writes after the first to all of them. */
  lemma ApplyWritesStep(store: Store, key: string, value: string, writes: seq<Write>, after: Store)
    requires |writes| > 0 && writes[0] == Some((key, value))
    requires forall k :: NotWritten(writes[1..], k) ==> Unchanged(store[key := value], after, k)
    ensures forall k :: NotWritten(writes, k) ==> Unchanged(store, after, k)
    ensures DistinctKeys(writes) ==> key in after && after[key] == value
  {
    var rest := writes[1..];
    assert forall i :: 0 <= i < |rest| ==> rest[i] == writes[i + 1];
    forall k | NotWritten(writes, k) ensures Unchanged(store, after, k) {
      assert NotWritten(rest, k);
    }
    if DistinctKeys(writes) {
      assert NotWritten(rest, key);
    }
  }

  /** The store after a setting's restore: the backup's text when truthy,
      the old entry otherwise. */
  ghost predicate SettingRestored(before: Store, after: Store, doc: Json, field: string, key: string,
                                  render: Json -> string) {
    if Truthy(Field(doc, field))
    then key in after && after[key] == ValueText(Field(doc, field).value, render)
    else Unchanged(before, after, key)
  }

  /** `restoreBackup`. */
  function Restore(store: Store, text: string, parse: string -> Option<Json>, stringify: Json -> string,
                   render: Json -> string, fits: (Store, string, string) -> bool): (r: Outcome)
    ensures parse(text).None? ==> r == Outcome(false, store)
    ensures parse(text).Some? && !Acceptable(parse(text).value) ==> r == Outcome(false, store)
    ensures forall k :: k !in StorageKeys ==> Unchanged(store, r.store, k)
    ensures r.ok ==> parse(text).Some? && Acceptable(parse(text).value)
    ensures r.ok ==> var doc := parse(text).value;
      && SubjectsKey in r.store && r.store[SubjectsKey] == stringify(Field(doc, "subjects").value)
      && SessionsKey in r.store && r.store[SessionsKey] == stringify(Field(doc, "sessions").value)
      && (forall i :: 0 <= i < |Settings| ==>
            SettingRestored(store, r.store, doc, Settings[i].0, Settings[i].1, render))
      && LibraryKey in r.store
      && r.store[LibraryKey] == (if Truthy(Field(doc, "library"))
                                 then stringify(Field(doc, "library").value) else "[]")
    ensures (forall st, k, v :: fits(st, k, v)) && parse(text).Some? && Acceptable(parse(text).value)
      ==> r.ok
  {
    match parse(text)
    case None => Outcome(false, store)
    case Some(doc) =>
      if !Acceptable(doc) then Outcome(false, store)
      else
        var r := ApplyWrites(store, Writes(doc, stringify, render), fits);
        RestoreFacts(store, doc, stringify, render, r);
        r
  }

  lemma RestoreFacts(store: Store, doc: Json, stringify: Json -> string, render: Json -> string, r: Outcome)
    requires Acceptable(doc)
    requires var ws := Writes(doc, stringify, render);
      && (forall k :: NotWritten(ws, k) ==> Unchanged(store, r.store, k))
      && (r.ok ==> forall i :: 0 <= i < |ws| && ws[i].Some? ==>
            ws[i].value.0 in r.store && r.store[ws[i].value.0] == ws[i].value.1)
    ensures forall k :: k !in StorageKeys ==> Unchanged(store, r.store, k)
    ensures r.ok ==>
      && SubjectsKey in r.store && r.store[SubjectsKey] == stringify(Field(doc, "subjects").value)
      && SessionsKey in r.store && r.store[SessionsKey] == stringify(Field(doc, "sessions").value)
      && (forall i :: 0 <= i < |Settings| ==>
            SettingRestored(store, r.store, doc, Settings[i].0, Settings[i].1, render))
      && LibraryKey in r.store
      && r.store[LibraryKey] == (if Truthy(Field(doc, "library"))
                                 then stringify(Field(doc, "library").value) else "[]")
  {
    var ws := Writes(doc, stringify, render);
    forall k | k !in StorageKeys ensures NotWritten(ws, k) {
      assert forall i :: 0 <= i < 9 ==> SlotKeys[i] in StorageKeys;
    }
    if r.ok {
      forall s | 0 <= s < |Settings|
        ensures SettingRestored(store, r.store, doc, Settings[s].0, Settings[s].1, render)
      {
        if !Truthy(Field(doc, Settings[s].0)) {
          assert forall i :: 0 <= i < 9 && i != s + 2 ==> SlotKeys[i] != Settings[s].1;
          assert NotWritten(ws, Settings[s].1);
        }
      }
    }
  }

  /** A backup taken from a store whose lists parse to lists is accepted,
      and after restoring it every one of the nine getters reads what it
      read before: the three lists and the six settings. */
  lemma BackupRoundTrip(store: Store, parse: string -> Option<Json>, stringify: Json -> string,
                        render: Json -> string, parseInt: string -> Option<int>,
                        parseFloat: string -> Option<real>, now: string)
    requires parse("[]") == Some(JArr([]))
    requires parse("").None? && parse("true") == Some(JBool(true))
    requires parseInt("120") == Some(120) && parseFloat("0.5") == Some(0.5)
    requires forall j :: stringify(j) != ""
    requires ListReadsBack(store, SubjectsKey, parse, stringify)
    requires ListReadsBack(store, SessionsKey, parse, stringify)
    requires ListReadsBack(store, LibraryKey, parse, stringify)
    requires parse(stringify(BackupOf(store, parse, now))) == Some(BackupOf(store, parse, now))
    ensures CreateBackup(store, parse, now).Some?
    ensures var doc := CreateBackup(store, parse, now).value;
      var r := Restore(store, stringify(doc), parse, stringify, render, (s: Store, k: string, v: string) => true);
      && r.ok
      && GetList(r.store, SubjectsKey, parse) == GetList(store, SubjectsKey, parse)
      && GetList(r.store, SessionsKey, parse) == GetList(store, SessionsKey, parse)
      && GetList(r.store, LibraryKey, parse) == GetList(store, LibraryKey, parse)
      && GetPrimaryColor(r.store) == GetPrimaryColor(store)
      && GetColorMode(r.store) == GetColorMode(store)
      && GetBackgroundMode(r.store) == GetBackgroundMode(store)
      && GetDailyGoal(r.store, parseInt) == GetDailyGoal(store, parseInt)
      && GetVolume(r.store, parseFloat) == GetVolume(store, parseFloat)
      && GetNotifications(r.store, parse) == GetNotifications(store, parse)
  {
    var doc := CreateBackup(store, parse, now).value;
    RestoreOfBackup(store, doc, parse, stringify, render, parseInt, parseFloat);
  }

  /** The restore of a document holding what `createBackup` puts in it. */
  lemma RestoreOfBackup(store: Store, doc: Json, parse: string -> Option<Json>, stringify: Json -> string,
                        render: Json -> string, parseInt: string -> Option<int>,
                        parseFloat: string -> Option<real>)
    requires parse("[]") == Some(JArr([]))
    requires parse("").None? && parse("true") == Some(JBool(true))
    requires parseInt("120") == Some(120) && parseFloat("0.5") == Some(0.5)
    requires forall j :: stringify(j) != ""
    requires parse(stringify(doc)) == Some(doc)
    requires Field(doc, "subjects") == parse(ItemOr(store, SubjectsKey, "[]"))
    requires Field(doc, "sessions") == parse(ItemOr(store, SessionsKey, "[]"))
    requires Field(doc, "library") == parse(ItemOr(store, LibraryKey, "[]"))
    requires IsArray(Field(doc, "subjects")) && IsArray(Field(doc, "sessions")) && IsArray(Field(doc, "library"))
    requires parse(stringify(Field(doc, "subjects").value)) == Field(doc, "subjects")
    requires parse(stringify(Field(doc, "sessions").value)) == Field(doc, "sessions")
    requires parse(stringify(Field(doc, "library").value)) == Field(doc, "library")
    requires Field(doc, "dailyGoal") == Some(JStr(ItemOr(store, DailyGoalKey, "120")))
    requires Field(doc, "primaryColor") == Some(JStr(ItemOr(store, PrimaryColorKey, "#ffffff")))
    requires Field(doc, "colorMode") == Some(JStr(ItemOr(store, ColorModeKey, "vibrant")))
    requires Field(doc, "backgroundMode") == Some(JStr(ItemOr(store, BackgroundModeKey, "default")))
    requires Field(doc, "volume") == Some(JStr(ItemOr(store, VolumeKey, "0.5")))
    requires Field(doc, "notificationsEnabled") == Some(JStr(ItemOr(store, NotificationsKey, "true")))
    ensures var r := Restore(store, stringify(doc), parse, stringify, render, (s: Store, k: string, v: string) => true);
      && r.ok
      && GetList(r.store, SubjectsKey, parse) == GetList(store, SubjectsKey, parse)
      && GetList(r.store, SessionsKey, parse) == GetList(store, SessionsKey, parse)
      && GetList(r.store, LibraryKey, parse) == GetList(store, LibraryKey, parse)
      && GetPrimaryColor(r.store) == GetPrimaryColor(store)
      && GetColorMode(r.store) == GetColorMode(store)
      && GetBackgroundMode(r.store) == GetBackgroundMode(store)
      && GetDailyGoal(r.store, parseInt) == GetDailyGoal(store, parseInt)
      && GetVolume(r.store, parseFloat) == GetVolume(store, parseFloat)
      && GetNotifications(r.store, parse) == GetNotifications(store, parse)
  {
    var always := (s: Store, k: string, v: string) => true;
    var r := Restore(store, stringify(doc), parse, stringify, render, always);
    assert Acceptable(doc);
    assert r.ok;
    AllSettingsBack(store, r.store, doc, render, parse, parseInt, parseFloat);
    assert Truthy(Field(doc, "library"));
    assert r.store[LibraryKey] == stringify(Field(doc, "library").value);
    ListRestored(store, r.store, SubjectsKey, parse);
    ListRestored(store, r.store, SessionsKey, parse);
    ListRestored(store, r.store, LibraryKey, parse);
  }

  /** Restoring the six settings of a backup taken from `before` leaves
      every settings getter reading what it read from `before`. */
  lemma AllSettingsBack(before: Store, after: Store, doc: Json, render: Json -> string,
                        parse: string -> Option<Json>, parseInt: string -> Option<int>,
                        parseFloat: string -> Option<real>)
    requires parse("").None? && parse("true") == Some(JBool(true))
    requires parseInt("120") == Some(120) && parseFloat("0.5") == Some(0.5)
    requires Field(doc, "dailyGoal") == Some(JStr(ItemOr(before, DailyGoalKey, "120")))
    requires Field(doc, "primaryColor") == Some(JStr(ItemOr(before, PrimaryColorKey, "#ffffff")))
    requires Field(doc, "colorMode") == Some(JStr(ItemOr(before, ColorModeKey, "vibrant")))
    requires Field(doc, "backgroundMode") == Some(JStr(ItemOr(before, BackgroundModeKey, "default")))
    requires Field(doc, "volume") == Some(JStr(ItemOr(before, VolumeKey, "0.5")))
    requires Field(doc, "notificationsEnabled") == Some(JStr(ItemOr(before, NotificationsKey, "true")))
    requires forall i :: 0 <= i < |Settings| ==>
      SettingRestored(before, after, doc, Settings[i].0, Settings[i].1, render)
    ensures GetPrimaryColor(after) == GetPrimaryColor(before)
    ensures GetColorMode(after) == GetColorMode(before)
    ensures GetBackgroundMode(after) == GetBackgroundMode(before)
    ensures GetDailyGoal(after, parseInt) == GetDailyGoal(before, parseInt)
    ensures GetVolume(after, parseFloat) == GetVolume(before, parseFloat)
    ensures GetNotifications(after, parse) == GetNotifications(before, parse)
  {
    SettingBack(before, after, doc, Settings[0].0, Settings[0].1, "120", render);
    SettingBack(before, after, doc, Settings[1].0, Settings[1].1, "#ffffff", render);
    SettingBack(before, after, doc, Settings[2].0, Settings[2].1, "vibrant", render);
    SettingBack(before, after, doc, Settings[3].0, Settings[3].1, "default", render);
    SettingBack(before, after, doc, Settings[4].0, Settings[4].1, "0.5", render);
    SettingBack(before, after, doc, Settings[5].0, Settings[5].1, "true", render);
    ReadersAgree(before, after);
    ParsingReadersAgree(before, after, parse, parseInt, parseFloat);
  }

  /** A setting the backup holds as its stored text (or default text) reads
      back the same after the restore. */
  lemma SettingBack(before: Store, after: Store, doc: Json, field: string, key: string, fallback: string,
                    render: Json -> string)
    requires fallback != ""
    requires Field(doc, field) == Some(JStr(ItemOr(before, key, fallback)))
    requires SettingRestored(before, after, doc, field, key, render)
    ensures ItemOr(after, key, fallback) == ItemOr(before, key, fallback)
  {
  }

  /** The colour and background readers see only the text `|| default` gives. */
  lemma ReadersAgree(before: Store, after: Store)
    requires ItemOr(after, PrimaryColorKey, "#ffffff") == ItemOr(before, PrimaryColorKey, "#ffffff")
    requires ItemOr(after, ColorModeKey, "vibrant") == ItemOr(before, ColorModeKey, "vibrant")
    requires ItemOr(after, BackgroundModeKey, "default") == ItemOr(before, BackgroundModeKey, "default")
    ensures GetPrimaryColor(after) == GetPrimaryColor(before)
    ensures GetColorMode(after) == GetColorMode(before)
    ensures GetBackgroundMode(after) == GetBackgroundMode(before)
  {
    assert "default" in BackgroundNames;
  }

  /** The goal, volume and notification readers parse only the text
      `|| default` gives, and the defaults parse to the readers' own defaults. */
  lemma ParsingReadersAgree(before: Store, after: Store, parse: string -> Option<Json>,
                            parseInt: string -> Option<int>, parseFloat: string -> Option<real>)
    requires parse("").None? && parse("true") == Some(JBool(true))
    requires parseInt("120") == Some(120) && parseFloat("0.5") == Some(0.5)
    requires ItemOr(after, DailyGoalKey, "120") == ItemOr(before, DailyGoalKey, "120")
    requires ItemOr(after, VolumeKey, "0.5") == ItemOr(before, VolumeKey, "0.5")
    requires ItemOr(after, NotificationsKey, "true") == ItemOr(before, NotificationsKey, "true")
    ensures GetDailyGoal(after, parseInt) == GetDailyGoal(before, parseInt)
    ensures GetVolume(after, parseFloat) == GetVolume(before, parseFloat)
    ensures GetNotifications(after, parse) == GetNotifications(before, parse)
  {
  }

  lemma ListRestored(before: Store, after: Store, key: string, parse: string -> Option<Json>)
    requires parse("[]") == Some(JArr([]))
    requires parse(ItemOr(before, key, "[]")).Some?
    requires key in after && after[key] != "" && parse(after[key]) == parse(ItemOr(before, key, "[]"))
    ensures GetList(after, key, parse) == GetList(before, key, parse)
  {
  }

  /** The restore is not atomic: a write that fails after the checks leaves
      the earlier writes in place, although the result is `false`. */
  lemma RestoreNotAtomic()
    ensures var doc := JObj(map["subjects" := JArr([]), "sessions" := JArr([])]);
      var r := Restore(map[], "backup", (t: string) => Some(doc), (j: Json) => "[]", (j: Json) => "",
                       (st: Store, k: string, v: string) => k != SessionsKey);
      && !r.ok && SubjectsKey in r.store && r.store[SubjectsKey] == "[]"
  {
    var doc := JObj(map["subjects" := JArr([]), "sessions" := JArr([])]);
    var fits := (st: Store, k: string, v: string) => k != SessionsKey;
    assert Acceptable(doc);
    var ws := Writes(doc, (j: Json) => "[]", (j: Json) => "");
    assert ws[0] == Some((SubjectsKey, "[]")) && ws[1] == Some((SessionsKey, "[]"));
    var after := map[SubjectsKey := "[]"];
    assert ApplyWrites(after, ws[1..], fits) == Outcome(false, after);
    assert ApplyWrites(map[], ws, fits) == Outcome(false, after);
  }
}
