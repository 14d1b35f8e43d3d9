/** The theme manager of useThemeManager.ts: a colour-mode preference handed to the colour-mode
    framework, and a custom colour theme kept in shared state, mirrored on the client into the
    `data-theme` attribute of the document element and into local storage. */
module ThemeManager {
  import opened Wrappers

  /** `ThemeName = 'default' | 'ocean' | 'sunset'` */
  datatype ThemeName = Default | Ocean | Sunset

  /** `ColorModeValue = 'light' | 'dark' | 'system'` */
  datatype ColorMode = Light | Dark | System

  function ThemeNameOf(t: ThemeName): string
  {
    match t
    case Default => "default"
    case Ocean => "ocean"
    case Sunset => "sunset"
  }

  /** `savedTheme && ['default', 'ocean', 'sunset'].includes(savedTheme)`, as the theme it names. */
  function ParseTheme(s: string): Option<ThemeName>
  {
    if s == "default" then Some(Default)
    else if s == "ocean" then Some(Ocean)
    else if s == "sunset" then Some(Sunset)
    else None
  }

  /** The three accepted names are exactly the names of the themes, and parsing inverts naming. */
  lemma ParseThemeRoundTrip(t: ThemeName, s: string)
    ensures ParseTheme(ThemeNameOf(t)) == Some(t)
    ensures ParseTheme(s) == Some(t) <==> s == ThemeNameOf(t)
    ensures ParseTheme(s).Some? <==> s in ["default", "ocean", "sunset"]
  {
  }

  /** The local-storage key of the saved theme. */
  const StorageKey := "propulsite-theme"

  /** One entry of `availableThemes` (`caption` is its `label`). */
  datatype ThemeOption = ThemeOption(value: ThemeName, caption: string, description: string)

  const AvailableThemes: seq<ThemeOption> := [
    ThemeOption(Default, "Default", "Thème par défaut (Blue)"),
    ThemeOption(Ocean, "Ocean", "Thème bleu océan"),
    ThemeOption(Sunset, "Sunset", "Thème orange sunset")
  ]

  /** Every theme is offered exactly once, and every offered value is a name `initTheme` accepts back. */
  lemma AvailableThemesComplete(t: ThemeName)
    ensures exists k :: 0 <= k < |AvailableThemes| && AvailableThemes[k].value == t
    ensures forall j, k :: 0 <= j < k < |AvailableThemes| ==> AvailableThemes[j].value != AvailableThemes[k].value
    ensures forall k :: 0 <= k < |AvailableThemes| ==>
      ParseTheme(ThemeNameOf(AvailableThemes[k].value)) == Some(AvailableThemes[k].value)
  {
    match t
    case Default => assert AvailableThemes[0].value == t;
    case Ocean => assert AvailableThemes[1].value == t;
    case Sunset => assert AvailableThemes[2].value == t;
  }

  /** The part of the state the theme operations touch: the current theme, the `data-theme`
      attribute (absent until first set) and local storage. */
  datatype ThemeState = ThemeState(current: ThemeName, dataTheme: Option<string>, storage: map<string, string>)

  /** The state after `setTheme(t)`. */
  function SetThemeSpec(isClient: bool, st: ThemeState, t: ThemeName): ThemeState
  {
    if isClient then ThemeState(t, Some(ThemeNameOf(t)), st.storage[StorageKey := ThemeNameOf(t)])
    else st.(current := t)
  }

  /** The theme `initTheme` settles on: the saved one when it is a known name, `default` otherwise. */
  function SavedTheme(storage: map<string, string>): ThemeName
  {
    if StorageKey in storage && ParseTheme(storage[StorageKey]).Some? then ParseTheme(storage[StorageKey]).value
    else Default
  }

  /** The state after `initTheme()`. */
  function InitThemeSpec(isClient: bool, st: ThemeState): ThemeState
  {
    if isClient then SetThemeSpec(true, st, SavedTheme(st.storage)) else st
  }

  /** `setTheme(t)` makes `t` current; on the client the attribute and the storage entry become `t`'s
      name and no other storage entry changes; off the client nothing else changes. */
  lemma SetThemeEffect(isClient: bool, st: ThemeState, t: ThemeName)
    ensures var r := SetThemeSpec(isClient, st, t);
      && r.current == t
      && (isClient ==> r.dataTheme == Some(ThemeNameOf(t)) && StorageKey in r.storage
                       && r.storage[StorageKey] == ThemeNameOf(t)
                       && forall k :: k != StorageKey ==> (k in r.storage <==> k in st.storage)
                                                          && (k in st.storage ==> r.storage[k] == st.storage[k]))
      && (!isClient ==> r.dataTheme == st.dataTheme && r.storage == st.storage)
  {
  }

  /** A saved known theme is restored, and storage stays as it was. */
  lemma InitRestoresSavedTheme(st: ThemeState, t: ThemeName)
    requires StorageKey in st.storage && ParseTheme(st.storage[StorageKey]) == Some(t)
    ensures var r := InitThemeSpec(true, st);
      r.current == t && r.storage == st.storage && r.dataTheme == Some(ThemeNameOf(t))
  {
    ParseThemeRoundTrip(t, st.storage[StorageKey]);
  }

  /** A missing or unknown saved value gives the default theme, and storage is overwritten with it. */
  lemma InitFallsBackToDefault(st: ThemeState)
    requires StorageKey !in st.storage || ParseTheme(st.storage[StorageKey]).None?
    ensures var r := InitThemeSpec(true, st);
      r.current == Default && r.storage == st.storage[StorageKey := "default"] && r.dataTheme == Some("default")
  {
  }

  /** Off the client `initTheme` changes nothing. */
  lemma InitOffClientUnchanged(st: ThemeState)
    ensures InitThemeSpec(false, st) == st
  {
  }

  /** After `initTheme` on the client the current theme is one of the offered themes, and it is the
      one stored and shown. */
  lemma InitSettles(st: ThemeState)
    ensures var r := InitThemeSpec(true, st);
      && StorageKey in r.storage && ParseTheme(r.storage[StorageKey]) == Some(r.current)
      && r.dataTheme == Some(ThemeNameOf(r.current))
      && exists k :: 0 <= k < |AvailableThemes| && AvailableThemes[k].value == r.current
  {
    var r := InitThemeSpec(true, st);
    ParseThemeRoundTrip(r.current, r.storage[StorageKey]);
    AvailableThemesComplete(r.current);
  }

  /** A second `initTheme` changes nothing. */
  lemma InitIdempotent(isClient: bool, st: ThemeState)
    ensures InitThemeSpec(isClient, InitThemeSpec(isClient, st)) == InitThemeSpec(isClient, st)
  {
    if isClient {
      InitSettles(st);
      var r := InitThemeSpec(true, st);
      assert r.storage[StorageKey := ThemeNameOf(r.current)] == r.storage;
    }
  }

  /** A theme chosen with `setTheme` survives the next `initTheme`. */
  lemma SetThenInitKeepsTheme(isClient: bool, st: ThemeState, t: ThemeName)
    ensures InitThemeSpec(isClient, SetThemeSpec(isClient, st, t)) == SetThemeSpec(isClient, st, t)
  {
    if isClient {
      var r := SetThemeSpec(true, st, t);
      ParseThemeRoundTrip(t, ThemeNameOf(t));
      assert r.storage[StorageKey := ThemeNameOf(t)] == r.storage;
    }
  }

  /** The manager: `isClient` stands for `process.client`, `colorModePreference` and `colorModeValue`
      for the colour-mode framework's preference and resolved value. */
  class ThemeManager {
    const isClient: bool
    var currentTheme: ThemeName
    var dataTheme: Option<string>
    var storage: map<string, string>
    var colorModePreference: ColorMode
    var colorModeValue: string

    /** A manager over the given page state; the theme starts as `default`. */
    constructor(isClient: bool, dataTheme: Option<string>, storage: map<string, string>,
                colorModePreference: ColorMode, colorModeValue: string)
      ensures this.isClient == isClient && currentTheme == Default
      ensures this.dataTheme == dataTheme && this.storage == storage
      ensures this.colorModePreference == colorModePreference && this.colorModeValue == colorModeValue
    {
      this.isClient := isClient;
      currentTheme := Default;
      this.dataTheme := dataTheme;
      this.storage := storage;
      this.colorModePreference := colorModePreference;
      this.colorModeValue := colorModeValue;
    }

    function State(): ThemeState
      reads this
    {
      ThemeState(currentTheme, dataTheme, storage)
    }

    /** `isDark`: the resolved colour mode is dark. The theme plays no part in it. */
    predicate IsDark()
      reads this
      ensures IsDark() <==> colorModeValue == "dark"
    {
      colorModeValue == "dark"
    }

    /** `setColorMode(mode)`: only the preference changes. */
    method SetColorMode(mode: ColorMode)
      modifies this
      ensures colorModePreference == mode
      ensures State() == old(State()) && colorModeValue == old(colorModeValue)
    {
      colorModePreference := mode;
    }

    /** `setTheme(theme)` */
    method SetTheme(theme: ThemeName)
      modifies this
      ensures State() == SetThemeSpec(isClient, old(State()), theme)
      ensures IsDark() == old(IsDark())
      ensures colorModePreference == old(colorModePreference) && colorModeValue == old(colorModeValue)
    {
      currentTheme := theme;
      if isClient {
        dataTheme := Some(ThemeNameOf(theme));
        storage := storage[StorageKey := ThemeNameOf(theme)];
      }
    }

    /** `initTheme()` */
    method InitTheme()
      modifies this
      ensures State() == InitThemeSpec(isClient, old(State()))
      ensures IsDark() == old(IsDark())
      ensures colorModePreference == old(colorModePreference) && colorModeValue == old(colorModeValue)
    {
      if isClient {
        var savedTheme := if StorageKey in storage then Some(storage[StorageKey]) else None;
        if savedTheme.Some? && ParseTheme(savedTheme.value).Some? {
          SetTheme(ParseTheme(savedTheme.value).value);
        } else {
          SetTheme(Default);
        }
      }
    }
  }
}
