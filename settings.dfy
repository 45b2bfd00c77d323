/** The persisted timer settings of the app hook (app/src/hooks/usePomodoro.ts):
    what `readStoredSettings` reads from the `pomodoro:settings` key, how the
    initial settings are derived from it, and the record `persistSettings`
    writes back. */
module Settings {
  import opened Wrappers

  datatype Mode = Focus | Break

  const DEFAULT_FOCUS_TIME: int := 25 * 60
  const DEFAULT_BREAK_TIME: int := 5 * 60

  /** A JSON value as `JSON.parse` yields it for one property. Numbers are
      integers here; arrays and objects are not told apart. */
  datatype Json = JNull | JBool(b: bool) | JNumber(n: int) | JString(s: string) | JStructured

  /** The parsed record; `None` is a property that is not present. A stored
      text that parses to something other than an object has no properties
      and reads like `NOTHING_STORED`. */
  datatype StoredSettings = StoredSettings(focus: Option<Json>, brk: Option<Json>,
                                           autoStart: Option<Json>, mode: Option<Json>)

  const NOTHING_STORED := StoredSettings(None, None, None, None)

  /** The content of the storage key: text that JSON.parse rejects, or a
      parsed record. An absent key and an empty string are both `None`. */
  datatype Entry = Malformed | Parsed(value: StoredSettings)

  /** What `readStoredSettings` returns, and the key's content afterwards. */
  datatype ReadOutcome = ReadOutcome(stored: Option<StoredSettings>, entryAfter: Option<Entry>)

  /** The settings the hook starts from: `initialSettings`. */
  datatype Config = Config(focus: int, brk: int, mode: Mode, autoStart: bool)

  const DEFAULT_CONFIG := Config(DEFAULT_FOCUS_TIME, DEFAULT_BREAK_TIME, Focus, true)

  /** `readStoredSettings`: a malformed entry is removed and read as absent;
      any other entry is left in place. */
  function ReadStoredSettings(entry: Option<Entry>): (r: ReadOutcome)
    ensures r.stored.Some? <==> entry.Some? && entry.value.Parsed?
    ensures r.stored.Some? ==> r.stored.value == entry.value.value
    ensures r.entryAfter == (if entry == Some(Malformed) then None else entry)
  {
    match entry
    case None => ReadOutcome(None, None)
    case Some(Malformed) => ReadOutcome(None, None)
    case Some(Parsed(v)) => ReadOutcome(Some(v), entry)
  }

  /** A stored duration is used only when it is a number greater than zero. */
  function StoredDuration(field: Option<Json>, default: int): int
  {
    if field.Some? && field.value.JNumber? && field.value.n > 0 then field.value.n else default
  }

  /** The lazy initial state of the hook: each field falls back to its
      default unless the stored value has the right shape. */
  function InitialSettings(stored: Option<StoredSettings>): (c: Config)
    ensures c.focus > 0 && c.brk > 0
    ensures stored == None ==> c == DEFAULT_CONFIG
    ensures stored.Some? ==>
      var s := stored.value;
      (c.focus == DEFAULT_FOCUS_TIME || s.focus == Some(JNumber(c.focus))) &&
      (s.focus.Some? && s.focus.value.JNumber? && s.focus.value.n > 0 ==> c.focus == s.focus.value.n) &&
      (c.brk == DEFAULT_BREAK_TIME || s.brk == Some(JNumber(c.brk))) &&
      (s.brk.Some? && s.brk.value.JNumber? && s.brk.value.n > 0 ==> c.brk == s.brk.value.n) &&
      (c.mode == Break <==> s.mode == Some(JString("break"))) &&
      (!c.autoStart <==> s.autoStart == Some(JBool(false)))
  {
    var s := stored.GetOr(NOTHING_STORED);
    Config(
      StoredDuration(s.focus, DEFAULT_FOCUS_TIME),
      StoredDuration(s.brk, DEFAULT_BREAK_TIME),
      if s.mode == Some(JString("focus")) || s.mode == Some(JString("break"))
      then (if s.mode == Some(JString("break")) then Break else Focus)
      else Focus,
      if s.autoStart.Some? && s.autoStart.value.JBool? then s.autoStart.value.b else true)
  }

  /** The settings a page load would start from, given the key's content. */
  function Restored(entry: Option<Entry>): Config {
    InitialSettings(ReadStoredSettings(entry).stored)
  }

  function ModeName(m: Mode): string {
    if m == Focus then "focus" else "break"
  }

  /** The record `persistSettings` stringifies: always all four properties. */
  function Encode(c: Config): (s: StoredSettings)
    ensures s.focus.Some? && s.brk.Some? && s.autoStart.Some? && s.mode.Some?
  {
    StoredSettings(Some(JNumber(c.focus)), Some(JNumber(c.brk)),
                   Some(JBool(c.autoStart)), Some(JString(ModeName(c.mode))))
  }

  /** Reading a written record back restores it, as long as both durations
      are positive (otherwise the defaults win). */
  lemma RestoredEncode(c: Config)
    ensures c.focus > 0 && c.brk > 0 ==> Restored(Some(Parsed(Encode(c)))) == c
  {
  }

  /** A second read changes nothing: the clean-up of a malformed entry is
      done once. */
  lemma ReadStoredSettingsStable(entry: Option<Entry>)
    ensures ReadStoredSettings(ReadStoredSettings(entry).entryAfter) == ReadStoredSettings(entry)
    ensures Restored(ReadStoredSettings(entry).entryAfter) == Restored(entry)
  {
  }
}
