/** The hex crawl's content catalog: party, enemy and event lists per
    biome, the conversion of the data files' biome-keyed tables, the fill
    of missing or empty biomes from the built-in defaults, and the queries
    the game makes of the catalog. Reading and parsing the files is not
    modelled: each file arrives as its parsed value, or None when it is
    missing or unreadable. */
module Content {
  import opened Wrappers
  import opened HexGrid
  import CombatTypes

  datatype PartyTemplate = PartyTemplate(
    name: string, baseMaxHp: int, attack: int, defense: int, range: int, moveRange: int,
    hasDiagonalMove: bool, ability: CombatTypes.AbilityType, abilityRange: int, abilityPower: int,
    abilityCooldown: int, initiativeBonus: int)

  datatype EnemyTemplate = EnemyTemplate(
    name: string, maxHp: int, attack: int, defense: int, range: int, moveRange: int, initiativeBonus: int)

  /** An event of the catalog; its fields play no part in the catalog's
      logic. */
  type EventDefinition

  /** A biome-keyed table as a data file holds it: entries in file order,
      each a key string and a list that may be null. */
  type RawTable<T> = seq<(string, Option<seq<T>>)>

  datatype PartyFile = PartyFile(party: Option<seq<PartyTemplate>>)

  datatype EnemiesFile = EnemiesFile(biomes: Option<RawTable<EnemyTemplate>>)

  datatype EventsFile = EventsFile(common: Option<seq<EventDefinition>>, biomes: Option<RawTable<EventDefinition>>)

  datatype ContentCatalog = ContentCatalog(
    party: seq<PartyTemplate>,
    enemiesByBiome: map<BiomeType, seq<EnemyTemplate>>,
    commonEvents: seq<EventDefinition>,
    eventsByBiome: map<BiomeType, seq<EventDefinition>>)

  /** The biomes in declaration order. */
  const AllBiomes: seq<BiomeType> := [Plains, Forest, Hills]

  /** GetEnemies: the biome's list, or an empty one when the biome has
      none. That every biome has enemies after loading is Load's ensures. */
  function GetEnemies(c: ContentCatalog, biome: BiomeType): (r: seq<EnemyTemplate>)
    ensures biome in c.enemiesByBiome ==> r == c.enemiesByBiome[biome]
    ensures biome !in c.enemiesByBiome ==> r == []
  {
    if biome in c.enemiesByBiome then c.enemiesByBiome[biome] else []
  }

  /** GetEvents: a fresh list of the common events followed by the biome's
      own; just the common events when the biome has none. */
  function GetEvents(c: ContentCatalog, biome: BiomeType): (r: seq<EventDefinition>)
    ensures |r| >= |c.commonEvents| && r[..|c.commonEvents|] == c.commonEvents
    ensures biome in c.eventsByBiome ==> r[|c.commonEvents|..] == c.eventsByBiome[biome]
    ensures biome !in c.eventsByBiome ==> r == c.commonEvents
  {
    c.commonEvents + if biome in c.eventsByBiome then c.eventsByBiome[biome] else []
  }

  /** Entry i of the table is kept under `biome`: its key parses to that
      biome and its list is not null. */
  predicate Kept<T>(entries: RawTable<T>, parse: string -> Option<BiomeType>, i: int, biome: BiomeType)
  {
    0 <= i < |entries| && parse(entries[i].0) == Some(biome) && entries[i].1.Some?
  }

  /** The map the entries build when each kept entry is stored in turn. */
  function ConvertEntries<T>(entries: RawTable<T>, parse: string -> Option<BiomeType>): map<BiomeType, seq<T>>
  {
    if |entries| == 0 then map[]
    else
      var m := ConvertEntries(entries[..|entries| - 1], parse);
      var (key, value) := entries[|entries| - 1];
      var biome := parse(key);
      if biome.Some? && value.Some? then m[biome.value := value.value] else m
  }

  /** What Convert*Biomes yields for a table that may be null. */
  function Converted<T>(raw: Option<RawTable<T>>, parse: string -> Option<BiomeType>): map<BiomeType, seq<T>>
  {
    if raw.None? then map[] else ConvertEntries(raw.value, parse)
  }

  /** A biome is in the converted map exactly when some entry is kept under
      it, and then it holds the list of the last such entry. */
  lemma {:induction false} ConvertEntriesSpec<T>(entries: RawTable<T>, parse: string -> Option<BiomeType>, biome: BiomeType)
    ensures biome in ConvertEntries(entries, parse) <==> exists i :: Kept(entries, parse, i, biome)
    ensures biome in ConvertEntries(entries, parse) ==>
              exists i :: Kept(entries, parse, i, biome) && ConvertEntries(entries, parse)[biome] == entries[i].1.value
                          && forall j :: i < j < |entries| ==> !Kept(entries, parse, j, biome)
    decreases |entries|
  {
    if |entries| > 0 {
      var n := |entries| - 1;
      var init := entries[..n];
      ConvertEntriesSpec(init, parse, biome);
      forall i | Kept(init, parse, i, biome) ensures Kept(entries, parse, i, biome) {
      }
      if Kept(entries, parse, n, biome) {
      } else {
        forall i | Kept(entries, parse, i, biome) ensures Kept(init, parse, i, biome) {
        }
        if biome in ConvertEntries(init, parse) {
          var i :| Kept(init, parse, i, biome) && ConvertEntries(init, parse)[biome] == init[i].1.value
                   && forall j :: i < j < |init| ==> !Kept(init, parse, j, biome);
          assert Kept(entries, parse, i, biome);
          assert forall j :: i < j < |entries| ==> !Kept(entries, parse, j, biome) by {
            forall j | i < j < |entries| ensures !Kept(entries, parse, j, biome) {
              if j < n {
                assert !Kept(init, parse, j, biome);
              }
            }
          }
        }
      }
    }
  }

  /** Convert*Biomes: an empty map for a null table; otherwise every entry
      whose key parses to a biome and whose list is not null is stored,
      later entries overwriting earlier ones. */
  method ConvertBiomes<T>(raw: Option<RawTable<T>>, parse: string -> Option<BiomeType>) returns (result: map<BiomeType, seq<T>>)
    ensures result == Converted(raw, parse)
    ensures raw.None? ==> result == map[]
  {
    result := map[];
    if raw.None? {
      return;
    }
    var entries := raw.value;
    var i := 0;
    while i < |entries|
      invariant 0 <= i <= |entries|
      invariant result == ConvertEntries(entries[..i], parse)
    {
      var (key, value) := entries[i];
      var biome := parse(key);
      if biome.Some? && value.Some? {
        result := result[biome.value := value.value];
      }
      assert entries[..i + 1][..i] == entries[..i];
      i := i + 1;
    }
    assert entries[..|entries|] == entries;
  }

  /** Ensure*: every biome gets a list; a biome already holding a non-empty
      list keeps it, a missing or empty one takes the default. */
  method EnsureLists<T>(m: map<BiomeType, seq<T>>, defaults: map<BiomeType, seq<T>>) returns (filled: map<BiomeType, seq<T>>)
    requires forall b: BiomeType :: b in defaults
    ensures forall b: BiomeType :: b in filled
    ensures forall b :: b in m && |m[b]| > 0 ==> filled[b] == m[b]
    ensures forall b :: b !in m || |m[b]| == 0 ==> filled[b] == defaults[b]
  {
    filled := m;
    var k := 0;
    while k < |AllBiomes|
      invariant 0 <= k <= |AllBiomes|
      invariant forall b :: b in m && |m[b]| > 0 ==> b in filled && filled[b] == m[b]
      invariant forall j :: 0 <= j < k ==> AllBiomes[j] in filled
      invariant forall j :: 0 <= j < k && (AllBiomes[j] !in m || |m[AllBiomes[j]]| == 0) ==>
                  filled[AllBiomes[j]] == defaults[AllBiomes[j]]
      invariant forall j :: k <= j < |AllBiomes| ==>
                  (AllBiomes[j] in filled <==> AllBiomes[j] in m) && (AllBiomes[j] in m ==> filled[AllBiomes[j]] == m[AllBiomes[j]])
    {
      var biome := AllBiomes[k];
      if biome !in filled || |filled[biome]| == 0 {
        filled := filled[biome := defaults[biome]];
      }
      k := k + 1;
    }
    forall b: BiomeType ensures b in filled && (b !in m || |m[b]| == 0 ==> filled[b] == defaults[b]) {
      assert b == AllBiomes[0] || b == AllBiomes[1] || b == AllBiomes[2];
    }
  }

  /** The party or common-event list of a file when it is there and not
      empty, the default otherwise. Load's ensures states the consequence
      for the loaded catalog. */
  function ChooseList<T>(fromFile: Option<seq<T>>, fallback: seq<T>): (r: seq<T>)
    ensures fromFile.Some? && |fromFile.value| > 0 ==> r == fromFile.value
    ensures fromFile.None? || |fromFile.value| == 0 ==> r == fallback
  {
    if fromFile.Some? && |fromFile.value| > 0 then fromFile.value else fallback
  }

  function PartyOf(f: Option<PartyFile>): Option<seq<PartyTemplate>>
  {
    if f.None? then None else f.value.party
  }

  function EnemyBiomesOf(f: Option<EnemiesFile>): Option<RawTable<EnemyTemplate>>
  {
    if f.None? then None else f.value.biomes
  }

  function CommonOf(f: Option<EventsFile>): Option<seq<EventDefinition>>
  {
    if f.None? then None else f.value.common
  }

  function EventBiomesOf(f: Option<EventsFile>): Option<RawTable<EventDefinition>>
  {
    if f.None? then None else f.value.biomes
  }

  /** A biome table after the fill: each biome holds the file's list when
      it is there and not empty, the default list otherwise. */
  function Filled<T>(fromFile: map<BiomeType, seq<T>>, defaults: map<BiomeType, seq<T>>): map<BiomeType, seq<T>>
    requires forall b: BiomeType :: b in defaults
  {
    map b | b in defaults :: if b in fromFile && |fromFile[b]| > 0 then fromFile[b] else defaults[b]
  }

  /** The filled table holds every biome, never drops a non-empty list of
      the file, and is never empty where the defaults are not. */
  lemma FilledSpec<T>(fromFile: map<BiomeType, seq<T>>, defaults: map<BiomeType, seq<T>>, b: BiomeType)
    requires forall b: BiomeType :: b in defaults
    ensures b in Filled(fromFile, defaults)
    ensures b in fromFile && |fromFile[b]| > 0 ==> Filled(fromFile, defaults)[b] == fromFile[b]
    ensures b !in fromFile || |fromFile[b]| == 0 ==> Filled(fromFile, defaults)[b] == defaults[b]
    ensures |defaults[b]| > 0 ==> |Filled(fromFile, defaults)[b]| > 0
  {
  }

  /** One biome table of Load: converted from the file, then every
      biome missing or empty in it filled from the defaults. */
  method LoadBiomeLists<T>(raw: Option<RawTable<T>>, defaults: map<BiomeType, seq<T>>, parse: string -> Option<BiomeType>)
    returns (lists: map<BiomeType, seq<T>>)
    requires forall b: BiomeType :: b in defaults
    ensures lists == Filled(Converted(raw, parse), defaults)
  {
    var fromFile := ConvertBiomes(raw, parse);
    lists := EnsureLists(fromFile, defaults);
    assert lists.Keys == Filled(fromFile, defaults).Keys by {
      forall b | b in lists ensures b in defaults { }
    }
  }

  /** Load, given each data file's parsed value (None for a missing or
      unreadable file): the party and the common events come from their
      file when it lists any and from the defaults otherwise; every biome
      table is the file's, filled from the defaults. So with non-empty
      defaults no biome is ever without enemies. */
  method Load(defaults: ContentCatalog, partyFile: Option<PartyFile>, enemiesFile: Option<EnemiesFile>,
              eventsFile: Option<EventsFile>, parse: string -> Option<BiomeType>) returns (catalog: ContentCatalog)
    requires forall b: BiomeType :: b in defaults.enemiesByBiome && b in defaults.eventsByBiome
    ensures catalog.party == ChooseList(PartyOf(partyFile), defaults.party)
    ensures catalog.commonEvents == ChooseList(CommonOf(eventsFile), defaults.commonEvents)
    ensures catalog.enemiesByBiome == Filled(Converted(EnemyBiomesOf(enemiesFile), parse), defaults.enemiesByBiome)
    ensures catalog.eventsByBiome == Filled(Converted(EventBiomesOf(eventsFile), parse), defaults.eventsByBiome)
    ensures (forall b: BiomeType :: |defaults.enemiesByBiome[b]| > 0) ==> forall b :: |GetEnemies(catalog, b)| > 0
  {
    var party := defaults.party;
    if partyFile.Some? && partyFile.value.party.Some? && |partyFile.value.party.value| > 0 {
      party := partyFile.value.party.value;
    }
    var enemyMap := LoadBiomeLists(EnemyBiomesOf(enemiesFile), defaults.enemiesByBiome, parse);
    var common := defaults.commonEvents;
    if eventsFile.Some? && eventsFile.value.common.Some? && |eventsFile.value.common.value| > 0 {
      common := eventsFile.value.common.value;
    }
    var eventMap := LoadBiomeLists(EventBiomesOf(eventsFile), defaults.eventsByBiome, parse);
    catalog := ContentCatalog(party, enemyMap, common, eventMap);
    if forall b: BiomeType :: |defaults.enemiesByBiome[b]| > 0 {
      forall b ensures |GetEnemies(catalog, b)| > 0 {
        FilledSpec(Converted(EnemyBiomesOf(enemiesFile), parse), defaults.enemiesByBiome, b);
      }
    }
  }
}
