/** UI theme presets: the names of the six presets, their colour palettes,
    the current theme, the store-if-different save, the theme PATCH
    endpoint and the fallback list of themes. The theme database and the
    display link are not modelled; the configuration store is represented
    by the value it holds and the writes made to it. */
module ThemeApi {
  import opened Base
  import opened NvsConfig

  // ---------------------------------------------------------------------
  // Presets and their names

  /** `themePreset_t` values. The enum is a C `int`: other values can reach
      the functions below (a theme read from the configuration store, say). */
  const THEME_ACS_DEFAULT := 0
  const THEME_BITAXE_RED := 1
  const THEME_BLOCKSTREAM_JADE := 2
  const THEME_BLOCKSTREAM_BLUE := 3
  const THEME_SOLO_SATOSHI := 4
  const THEME_SOLO_MINING_CO := 5

  predicate IsPreset(p: int) {
    THEME_ACS_DEFAULT <= p <= THEME_SOLO_MINING_CO
  }

  /** `themePresetToString`: every value outside the five named presets
      reads as the default. */
  function PresetName(p: int): string {
    if p == THEME_BITAXE_RED then "THEME_BITAXE_RED"
    else if p == THEME_BLOCKSTREAM_JADE then "THEME_BLOCKSTREAM_JADE"
    else if p == THEME_BLOCKSTREAM_BLUE then "THEME_BLOCKSTREAM_BLUE"
    else if p == THEME_SOLO_SATOSHI then "THEME_SOLO_SATOSHI"
    else if p == THEME_SOLO_MINING_CO then "THEME_SOLO_MINING_CO"
    else "THEME_ACS_DEFAULT"
  }

  /** `themePresetFromString`: an unknown name reads as the default. */
  function PresetFromName(name: string): (p: int)
    ensures IsPreset(p)
  {
    if name == "THEME_BITAXE_RED" then THEME_BITAXE_RED
    else if name == "THEME_BLOCKSTREAM_JADE" then THEME_BLOCKSTREAM_JADE
    else if name == "THEME_BLOCKSTREAM_BLUE" then THEME_BLOCKSTREAM_BLUE
    else if name == "THEME_SOLO_SATOSHI" then THEME_SOLO_SATOSHI
    else if name == "THEME_SOLO_MINING_CO" then THEME_SOLO_MINING_CO
    else THEME_ACS_DEFAULT
  }

  /** Reading a preset's name gives the preset back. */
  lemma NameRoundTrip(p: int)
    requires IsPreset(p)
    ensures PresetFromName(PresetName(p)) == p
  {
  }

  /** The six presets have six different names. */
  lemma NamesDistinct(p: int, q: int)
    requires IsPreset(p) && IsPreset(q) && p != q
    ensures PresetName(p) != PresetName(q)
  {
    NameRoundTrip(p);
    NameRoundTrip(q);
  }

  /** A name selects a preset other than the default exactly when it is
      that preset's name; every other text reads as the default. */
  lemma NameRecognised(name: string)
    ensures PresetFromName(name) != THEME_ACS_DEFAULT ==> PresetName(PresetFromName(name)) == name
    ensures (forall p :: IsPreset(p) ==> PresetName(p) != name) ==> PresetFromName(name) == THEME_ACS_DEFAULT
  {
    if PresetFromName(name) != THEME_ACS_DEFAULT {
      assert PresetName(PresetFromName(name)) == name;
    }
  }

  /** Values outside the enum are named like the default. */
  lemma OutOfRangeNamedDefault(p: int)
    requires !IsPreset(p)
    ensures PresetName(p) == PresetName(THEME_ACS_DEFAULT)
  {
  }

  // ---------------------------------------------------------------------
  // Palettes and the current theme

  /** Size of each colour field of `uiTheme_t`. */
  const COLOR_FIELD_SIZE := 8

  datatype Palette = Palette(primary: string, secondary: string, background: string, text: string, border: string)

  /** `uiTheme_t`: five colour fields and the preset they came from. */
  datatype UiTheme = UiTheme(colors: Palette, preset: int)

  /** The palette `initializeTheme` installs for each preset; `Rgb(0xF80421)`
      is the text "#F80421". */
  function PaletteOf(p: int): Palette
    requires IsPreset(p)
  {
    if p == THEME_BITAXE_RED then Palette(Rgb(0xF80421), Rgb(0xFC4D62), Rgb(0x070D17), Rgb(0xF80421), Rgb(0xFC4D62))
    else if p == THEME_BLOCKSTREAM_JADE then Palette(Rgb(0x00B093), Rgb(0x006D62), Rgb(0x111316), Rgb(0x21CCAB), Rgb(0x01544A))
    else if p == THEME_BLOCKSTREAM_BLUE then Palette(Rgb(0x00C3FF), Rgb(0x00C3FF), Rgb(0x111316), Rgb(0x00C3FF), Rgb(0x00C3FF))
    else if p == THEME_SOLO_SATOSHI then Palette(Rgb(0xF80421), Rgb(0xF7931A), Rgb(0x070D17), Rgb(0xFFFFFF), Rgb(0xF7931A))
    else if p == THEME_SOLO_MINING_CO then Palette(Rgb(0xF15900), Rgb(0xC5900F), Rgb(0x111316), Rgb(0xFFFFFF), Rgb(0xC5900F))
    else Palette(Rgb(0xA7F3D0), Rgb(0xA7F3D0), Rgb(0x161F1B), Rgb(0xA7F3D0), Rgb(0xA7F3D0))
  }

  predicate IsHexDigit(c: char) {
    '0' <= c <= '9' || 'A' <= c <= 'F' || 'a' <= c <= 'f'
  }

  /** `#RRGGBB`. */
  predicate IsHexColor(c: string) {
    |c| == 7 && c[0] == '#' && forall i :: 1 <= i < 7 ==> IsHexDigit(c[i])
  }

  /** An upper-case hexadecimal digit. */
  function HexDigit(d: nat): (c: char)
    requires d < 16
    ensures IsHexDigit(c)
  {
    if d < 10 then ('0' as int + d) as char else ('A' as int + d - 10) as char
  }

  /** The colour literal for a 24-bit value, six upper-case digits after '#'. */
  function Rgb(v: nat): (c: string)
    requires v < 0x100_0000
    ensures IsHexColor(c)
  {
    ['#', HexDigit(v / 0x10_0000), HexDigit(v / 0x1_0000 % 16), HexDigit(v / 0x1000 % 16),
     HexDigit(v / 0x100 % 16), HexDigit(v / 0x10 % 16), HexDigit(v % 16)]
  }

  predicate WellFormed(pal: Palette) {
    && IsHexColor(pal.primary) && IsHexColor(pal.secondary) && IsHexColor(pal.background)
    && IsHexColor(pal.text) && IsHexColor(pal.border)
  }

  /** `strncpy` of a colour into its field, leaving the last byte for the NUL. */
  function StoreColor(c: string): (stored: string)
    ensures |stored| < COLOR_FIELD_SIZE && stored <= c
  {
    Prefix(c, COLOR_FIELD_SIZE - 1)
  }

  function StorePalette(pal: Palette): Palette {
    Palette(StoreColor(pal.primary), StoreColor(pal.secondary), StoreColor(pal.background),
            StoreColor(pal.text), StoreColor(pal.border))
  }

  /** `initializeTheme`: a preset installs its palette and itself; any other
      value leaves the theme as it was. */
  function InitializeTheme(theme: UiTheme, p: int): (r: UiTheme)
    ensures !IsPreset(p) ==> r == theme
    ensures IsPreset(p) ==> r.preset == p
  {
    if IsPreset(p) then UiTheme(StorePalette(PaletteOf(p)), p) else theme
  }

  lemma HexColorStoredWhole(c: string)
    requires IsHexColor(c)
    ensures StoreColor(c) == c
  {
  }

  /** Every palette colour is a `#RRGGBB` text that fits its 8-byte field,
      so the current theme holds the palette exactly. */
  lemma PalettesFit(theme: UiTheme, p: int)
    requires IsPreset(p)
    ensures WellFormed(PaletteOf(p))
    ensures InitializeTheme(theme, p).colors == PaletteOf(p)
  {
    var pal := PaletteOf(p);
    HexColorStoredWhole(pal.primary);
    HexColorStoredWhole(pal.secondary);
    HexColorStoredWhole(pal.background);
    HexColorStoredWhole(pal.text);
    HexColorStoredWhole(pal.border);
    assert StorePalette(pal) == pal;
  }





  // ---------------------------------------------------------------------
  // saveThemetoNVS

  /** The configuration store's theme value and the current theme. */
  datatype ThemeState = ThemeState(stored: u16, theme: UiTheme)

  /** `saveThemetoNVS`: the preset is written to the store only when the
      stored value differs, then the theme is initialised from it. */
  function SaveTheme(s: ThemeState, p: int): (r: (seq<ConfigWrite>, ThemeState))
    ensures r.0 == [] || r.0 == [SetU16(THEME_NAME, ToU16(p))]
    ensures r.0 == [] <==> s.stored == p
    ensures r.1.theme == InitializeTheme(s.theme, p)
  {
    var writes := if s.stored != p then [SetU16(THEME_NAME, ToU16(p))] else [];
    var stored := if s.stored != p then ToU16(p) else s.stored;
    (writes, ThemeState(stored, InitializeTheme(s.theme, p)))
  }

  /** Saving the same preset again writes nothing and changes nothing. */
  lemma SaveThemeIdempotent(s: ThemeState, p: int)
    requires IsPreset(p)
    ensures var after := SaveTheme(s, p).1;
      SaveTheme(after, p) == ([], after)
  {
  }

  // ---------------------------------------------------------------------
  // PATCH /api/themes/<name>

  /** Size of the buffer the theme name is copied into. */
  const THEME_NAME_SIZE := 32

  function LastIndex(s: string, c: char): (i: nat)
    requires c in s
    ensures i < |s| && s[i] == c && c !in s[i + 1..]
  {
    if s[|s| - 1] == c then |s| - 1
    else
      assert c in s[..|s| - 1] by {
        var k :| 0 <= k < |s| && s[k] == c;
        assert s[..|s| - 1][k] == c;
      }
      var i := LastIndex(s[..|s| - 1], c);
      assert s[i + 1..] == s[..|s| - 1][i + 1..] + [s[|s| - 1]];
      i
  }

  /** The theme name of a PATCH URI: the text after the last '/', cut to
      31 characters; `None` when the URI has no '/'. */
  function ThemeNameFromUri(uri: string): (name: Option<string>)
    ensures name.None? <==> '/' !in uri
    ensures name.Some? ==> |name.value| < THEME_NAME_SIZE && '/' !in name.value
  {
    if '/' !in uri then None
    else
      var rest := uri[LastIndex(uri, '/') + 1..];
      Some(Prefix(rest, THEME_NAME_SIZE - 1))
  }

  /** What the handler answers. On success it records the two theme names
      it logs and the name it sends to the display. */
  datatype PatchOutcome =
    | InvalidUrl
    | InvalidName(name: string)
    | Applied(name: string, writes: seq<ConfigWrite>, state: ThemeState,
              previousTheme: string, newTheme: string, displayName: string)

  /** `theme_patch_handler` as written: the "previous" theme is read after
      the save has already installed the new one. */
  function PatchThemeAsWritten(s: ThemeState, uri: string): PatchOutcome {
    match ThemeNameFromUri(uri)
    case None => InvalidUrl
    case Some(name) =>
      var p := PresetFromName(name);
      if p == THEME_ACS_DEFAULT && name != "THEME_ACS_DEFAULT" then InvalidName(name)
      else
        var (writes, after) := SaveTheme(s, p);
        Applied(name, writes, after, PresetName(after.theme.preset), name, PresetName(p))
  }

  /** The handler with the previous theme read before the save. */
  function PatchTheme(s: ThemeState, uri: string): (r: PatchOutcome)
    ensures r.Applied? ==> r.previousTheme == PresetName(s.theme.preset)
  {
    match ThemeNameFromUri(uri)
    case None => InvalidUrl
    case Some(name) =>
      var p := PresetFromName(name);
      if p == THEME_ACS_DEFAULT && name != "THEME_ACS_DEFAULT" then InvalidName(name)
      else
        var (writes, after) := SaveTheme(s, p);
        Applied(name, writes, after, PresetName(s.theme.preset), name, PresetName(p))
  }

  /** A PATCH succeeds exactly when the last path segment (cut to 31
      characters) is one of the six preset names; it then installs that
      preset, stores it if the store held something else, and sends the
      display the same name. */
  lemma PatchAcceptsPresetNames(s: ThemeState, uri: string)
    ensures PatchTheme(s, uri).InvalidUrl? <==> '/' !in uri
    ensures var r := PatchTheme(s, uri);
      r.Applied? <==> ThemeNameFromUri(uri).Some? && exists p :: IsPreset(p) && PresetName(p) == ThemeNameFromUri(uri).value
    ensures var r := PatchTheme(s, uri);
      r.Applied? ==>
        var p := PresetFromName(r.name);
        && PresetName(p) == r.name && r.displayName == r.name
        && r.state.theme == UiTheme(PaletteOf(p), p)
        && (r.writes == [] <==> s.stored == p)
  {
    var r := PatchTheme(s, uri);
    if ThemeNameFromUri(uri).Some? {
      var name := ThemeNameFromUri(uri).value;
      NameRecognised(name);
      var p := PresetFromName(name);
      if r.Applied? {
        PalettesFit(s.theme, p);
        assert PresetName(p) == name;
      }
      if exists q :: IsPreset(q) && PresetName(q) == name {
        var q :| IsPreset(q) && PresetName(q) == name;
        NameRoundTrip(q);
      }
    }
  }

  /** A last segment longer than 31 characters is always refused: no
      preset name is long enough to survive the cut. */
  lemma OverlongNameRefused(s: ThemeState, uri: string)
    requires '/' in uri && |uri| - LastIndex(uri, '/') - 1 >= THEME_NAME_SIZE
    ensures PatchTheme(s, uri).InvalidName?
  {
    var name := ThemeNameFromUri(uri).value;
    assert |name| == THEME_NAME_SIZE - 1;
    LongNameUnknown(name);
  }

  /** No preset name is longer than 22 characters. */
  lemma LongNameUnknown(name: string)
    requires |name| > 22
    ensures PresetFromName(name) == THEME_ACS_DEFAULT && name != "THEME_ACS_DEFAULT"
  {
  }

  /** The PATCH as written and the corrected one agree in everything but the
      logged previous theme. */
  lemma PatchVariantsAgree(s: ThemeState, uri: string)
    ensures var a := PatchThemeAsWritten(s, uri);
      var b := PatchTheme(s, uri);
      a.Applied? == b.Applied? && (a.Applied? ==> a.(previousTheme := b.previousTheme) == b)
      && (!a.Applied? ==> a == b)
  {
  }

  /** As written, the log's previous theme is always the new one. */
  lemma PreviousThemeIsNewTheme(s: ThemeState, uri: string)
    ensures var r := PatchThemeAsWritten(s, uri);
      r.Applied? ==> r.previousTheme == PresetName(PresetFromName(r.name)) == r.newTheme
  {
    var r := PatchThemeAsWritten(s, uri);
    if r.Applied? {
      NameRecognised(r.name);
    }
  }

  /** The concrete case: switching from THEME_BITAXE_RED to
      THEME_SOLO_SATOSHI logs THEME_SOLO_SATOSHI as the previous theme,
      where the corrected handler logs THEME_BITAXE_RED. */
  lemma PreviousThemeExample(s: ThemeState, uri: string)
    requires s.theme.preset == THEME_BITAXE_RED
    requires uri == "/api/themes/" + "THEME_SOLO_SATOSHI"
    ensures PatchThemeAsWritten(s, uri).Applied? && PatchThemeAsWritten(s, uri).previousTheme == "THEME_SOLO_SATOSHI"
    ensures PatchTheme(s, uri).Applied? && PatchTheme(s, uri).previousTheme == "THEME_BITAXE_RED"
  {
    var name := "THEME_SOLO_SATOSHI";
    assert uri == "/api/themes" + ['/'] + name;
    assert '/' !in name;
    LastSegment("/api/themes", name);
  }

  lemma LastSegment(dir: string, name: string)
    requires '/' !in name
    ensures '/' in dir + ['/'] + name && LastIndex(dir + ['/'] + name, '/') == |dir|
  {
    var s := dir + ['/'] + name;
    assert s[|dir|] == '/';
    assert s[|dir| + 1..] == name;
  }

  /** The name read from a URI is the text after its last '/', whatever
      comes before, cut to 31 characters. */
  lemma NameAfterLastSlash(dir: string, name: string)
    requires '/' !in name
    ensures ThemeNameFromUri(dir + ['/'] + name) == Some(Prefix(name, THEME_NAME_SIZE - 1))
  {
    LastSegment(dir, name);
    var s := dir + ['/'] + name;
    assert s[|dir| + 1..] == name;
  }

  // ---------------------------------------------------------------------
  // The fallback theme list

  /** The list `theme_active_themes_handler` builds when the database has
      none: the preset names in enum order. */
  function FallbackThemes(): (names: seq<string>)
    ensures |names| == 6
  {
    seq(6, i => PresetName(i))
  }

  /** The fallback list names every preset once, each reading back as its
      position. */
  lemma FallbackThemesComplete()
    ensures forall i :: 0 <= i < 6 ==> PresetFromName(FallbackThemes()[i]) == i
    ensures forall i, j :: 0 <= i < j < 6 ==> FallbackThemes()[i] != FallbackThemes()[j]
  {
    forall i | 0 <= i < 6
      ensures PresetFromName(FallbackThemes()[i]) == i
    {
      NameRoundTrip(i);
    }
  }
}
