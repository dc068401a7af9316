/** The game-version and language tags and their membership validators. */
module GameTypes {
  import opened Wrappers

  /** Ruby/Sapphire, FireRed/LeafGreen and Emerald. */
  datatype GameVersion = RS | FRLG | E

  datatype GameLanguage = JPN | ENG | FRA | ITA | GER | SPA

  /** The string literal of each member of the `GameVersion` union. */
  function VersionTag(v: GameVersion): string
  {
    match v
    case RS => "RS"
    case FRLG => "FRLG"
    case E => "E"
  }

  /** The string literal of each member of the `GameLanguage` union. */
  function LanguageTag(l: GameLanguage): string
  {
    match l
    case JPN => "JPN"
    case ENG => "ENG"
    case FRA => "FRA"
    case ITA => "ITA"
    case GER => "GER"
    case SPA => "SPA"
  }

  /** The type guard `isGameVersion`: holds exactly for the literals of the
      union. */
  function IsGameVersion(version: string): (r: bool)
    ensures r <==> exists v: GameVersion :: VersionTag(v) == version
  {
    assert VersionTag(RS) == "RS" && VersionTag(FRLG) == "FRLG" && VersionTag(E) == "E";
    version == "RS" || version == "FRLG" || version == "E"
  }

  /** The type guard `isGameLanguage`: holds exactly for the literals of the
      union. */
  function IsGameLanguage(language: string): (r: bool)
    ensures r <==> exists l: GameLanguage :: LanguageTag(l) == language
  {
    assert LanguageTag(JPN) == "JPN" && LanguageTag(ENG) == "ENG" && LanguageTag(FRA) == "FRA";
    assert LanguageTag(ITA) == "ITA" && LanguageTag(GER) == "GER" && LanguageTag(SPA) == "SPA";
    language == "JPN" || language == "ENG" || language == "FRA"
    || language == "ITA" || language == "GER" || language == "SPA"
  }

  /** The narrowing the guard performs: the tag's version, if it is one. */
  function ParseVersion(version: string): (r: Option<GameVersion>)
    ensures r.Some? <==> IsGameVersion(version)
    ensures r.Some? ==> VersionTag(r.value) == version
  {
    if version == "RS" then Some(RS)
    else if version == "FRLG" then Some(FRLG)
    else if version == "E" then Some(E)
    else None
  }

  function ParseLanguage(language: string): (r: Option<GameLanguage>)
    ensures r.Some? <==> IsGameLanguage(language)
    ensures r.Some? ==> LanguageTag(r.value) == language
  {
    if language == "JPN" then Some(JPN)
    else if language == "ENG" then Some(ENG)
    else if language == "FRA" then Some(FRA)
    else if language == "ITA" then Some(ITA)
    else if language == "GER" then Some(GER)
    else if language == "SPA" then Some(SPA)
    else None
  }

  /** Tags name their members uniquely, so parsing a tag gives back the
      member it names. */
  lemma TagsRoundTrip(v: GameVersion, l: GameLanguage)
    ensures ParseVersion(VersionTag(v)) == Some(v)
    ensures ParseLanguage(LanguageTag(l)) == Some(l)
  {
  }

  /** The accepted literals: three version tags and six language tags, each
      the tag of exactly one member. */
  lemma TagCounts()
    ensures forall s :: IsGameVersion(s) <==> s in {"RS", "FRLG", "E"}
    ensures forall s :: IsGameLanguage(s) <==> s in {"JPN", "ENG", "FRA", "ITA", "GER", "SPA"}
    ensures |{"RS", "FRLG", "E"}| == 3
    ensures |{"JPN", "ENG", "FRA", "ITA", "GER", "SPA"}| == 6
    ensures forall v, w :: VersionTag(v) == VersionTag(w) ==> v == w
    ensures forall l, m :: LanguageTag(l) == LanguageTag(m) ==> l == m
  {
    assert |{"RS", "FRLG"}| == 2;
    assert |{"JPN", "ENG"}| == 2;
    assert |{"JPN", "ENG", "FRA"}| == 3;
    assert |{"JPN", "ENG", "FRA", "ITA"}| == 4;
    assert |{"JPN", "ENG", "FRA", "ITA", "GER"}| == 5;
  }

  /** No string is accepted both as a version and as a language. */
  lemma VersionsAndLanguagesDisjoint(s: string)
    ensures !(IsGameVersion(s) && IsGameLanguage(s))
  {
  }
}
