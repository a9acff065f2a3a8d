/** The rules' object-type catalogs: six lists of types, each filled from
    the INI section that lists that kind of object, with every type numbered
    by its position within its section. The textures of the theater graphics
    are looked up by that number. */
module Rules {
  import opened Common

  /** One line `key=value` of an INI section. */
  datatype IniEntry = IniEntry(key: string, value: string)

  /** An INI file as the editor's parser presents it: each section's lines in file order. */
  datatype IniFile = IniFile(sections: map<string, seq<IniEntry>>)

  /** IniFile.GetSectionKeys: the section's keys in order, or None (null) when
      the section does not exist. */
  function GetSectionKeys(ini: IniFile, section: string): (keys: Option<seq<string>>)
    ensures keys.None? <==> section !in ini.sections
    ensures keys.Some? ==> |keys.value| == |ini.sections[section]|
    ensures keys.Some? ==> forall k :: 0 <= k < |keys.value| ==> keys.value[k] == ini.sections[section][k].key
  {
    if section in ini.sections then
      Some(seq(|ini.sections[section]|, k requires 0 <= k < |ini.sections[section]| => ini.sections[section][k].key))
    else None
  }

  /** The value of the first line of `lines` whose key is `key`. */
  function FirstValue(lines: seq<IniEntry>, key: string): (v: string)
    requires exists k :: 0 <= k < |lines| && lines[k].key == key
    ensures exists k :: 0 <= k < |lines| && lines[k].key == key && lines[k].value == v
                        && (forall j :: 0 <= j < k ==> lines[j].key != key)
  {
    if lines[0].key == key then lines[0].value
    else
      var v := FirstValue(lines[1..], key);
      assert forall k :: 0 <= k < |lines| - 1 ==> lines[1..][k] == lines[k + 1];
      v
  }

  /** IniFile.GetStringValue(section, key, null): the key's first value, or
      None (the null default) when the section or the key is missing. */
  function GetStringValue(ini: IniFile, section: string, key: string): (v: Option<string>)
    ensures v.Some? <==> section in ini.sections && exists k :: 0 <= k < |ini.sections[section]| && ini.sections[section][k].key == key
  {
    if section in ini.sections && exists k :: 0 <= k < |ini.sections[section]| && ini.sections[section][k].key == key
    then Some(FirstValue(ini.sections[section], key))
    else None
  }

  /** An object type as the catalogs hold it: the name it was created with
      and its Index. The reflection that builds the concrete C# type from its
      name is a pure name-to-object step here. */
  datatype TypeEntry = TypeEntry(iniName: string, index: int)

  /** The section's objects as InitFromTypeSection creates them: one per line,
      in order, the k-th named after its key's first value and numbered k. */
  function SectionObjects(ini: IniFile, section: string): (objects: seq<TypeEntry>)
    ensures section !in ini.sections ==> objects == []
    ensures section in ini.sections ==> |objects| == |ini.sections[section]|
  {
    if section !in ini.sections then []
    else
      var lines := ini.sections[section];
      seq(|lines|, k requires 0 <= k < |lines| => TypeEntry(FirstValue(lines, lines[k].key), k))
  }

  /** InitFromTypeSection: a missing or empty section leaves the list as it
      was; otherwise one object per key is appended, in key order, the k-th
      with Index k counted from 0 whatever the list held before. */
  method InitFromTypeSection(ini: IniFile, section: string, target: seq<TypeEntry>) returns (result: seq<TypeEntry>)
    ensures result == target + SectionObjects(ini, section)
    ensures (section !in ini.sections || |ini.sections[section]| == 0) ==> result == target
    ensures forall k :: |target| <= k < |result| ==> result[k].index == k - |target|
  {
    var sectionKeys := GetSectionKeys(ini, section);
    if sectionKeys.None? || |sectionKeys.value| == 0 {
      return target;
    }
    var keys := sectionKeys.value;
    var lines := ini.sections[section];
    result := target;
    var i := 0;
    for n := 0 to |keys|
      invariant i == n
      invariant result == target + SectionObjects(ini, section)[..n]
    {
      var key := keys[n];
      assert lines[n].key == key;
      var typeName := GetStringValue(ini, section, key).value;
      result := result + [TypeEntry(typeName, i)];
      i := i + 1;
      assert SectionObjects(ini, section)[..n + 1] == SectionObjects(ini, section)[..n] + [SectionObjects(ini, section)[n]];
    }
    assert SectionObjects(ini, section)[..|keys|] == SectionObjects(ini, section);
  }

  /** The six catalogs of Rules. */
  datatype Catalogs = Catalogs(
    unitTypes: seq<TypeEntry>,
    infantryTypes: seq<TypeEntry>,
    buildingTypes: seq<TypeEntry>,
    aircraftTypes: seq<TypeEntry>,
    terrainTypes: seq<TypeEntry>,
    overlayTypes: seq<TypeEntry>)

  /** Every object sits at the position its Index names. */
  predicate IndexedByPosition(list: seq<TypeEntry>) {
    forall k :: 0 <= k < |list| ==> list[k].index == k
  }

  /** The first half of InitFromINI: each section extends only its own
      catalog ("VehicleTypes" fills the unit types). */
  method InitFromINI(ini: IniFile, rules: Catalogs) returns (result: Catalogs)
    ensures result.unitTypes == rules.unitTypes + SectionObjects(ini, "VehicleTypes")
    ensures result.infantryTypes == rules.infantryTypes + SectionObjects(ini, "InfantryTypes")
    ensures result.buildingTypes == rules.buildingTypes + SectionObjects(ini, "BuildingTypes")
    ensures result.aircraftTypes == rules.aircraftTypes + SectionObjects(ini, "AircraftTypes")
    ensures result.terrainTypes == rules.terrainTypes + SectionObjects(ini, "TerrainTypes")
    ensures result.overlayTypes == rules.overlayTypes + SectionObjects(ini, "OverlayTypes")
    ensures rules == Catalogs([], [], [], [], [], []) ==>
      && IndexedByPosition(result.unitTypes) && IndexedByPosition(result.infantryTypes)
      && IndexedByPosition(result.buildingTypes) && IndexedByPosition(result.aircraftTypes)
      && IndexedByPosition(result.terrainTypes) && IndexedByPosition(result.overlayTypes)
  {
    var units := InitFromTypeSection(ini, "VehicleTypes", rules.unitTypes);
    var infantry := InitFromTypeSection(ini, "InfantryTypes", rules.infantryTypes);
    var buildings := InitFromTypeSection(ini, "BuildingTypes", rules.buildingTypes);
    var aircraft := InitFromTypeSection(ini, "AircraftTypes", rules.aircraftTypes);
    var terrain := InitFromTypeSection(ini, "TerrainTypes", rules.terrainTypes);
    var overlays := InitFromTypeSection(ini, "OverlayTypes", rules.overlayTypes);
    result := Catalogs(units, infantry, buildings, aircraft, terrain, overlays);
  }

  /** The objects of one section, named after their keys' values. */
  lemma SectionObjectsContents(ini: IniFile, section: string, k: int)
    requires section in ini.sections && 0 <= k < |ini.sections[section]|
    ensures SectionObjects(ini, section)[k].index == k
    ensures SectionObjects(ini, section)[k].iniName == GetStringValue(ini, section, ini.sections[section][k].key).value
  {
  }

  /** Filling an empty catalog numbers every object by its position, which
      is what indexing a texture array by a type's Index relies on. */
  lemma FreshCatalogIndexedByPosition(ini: IniFile, section: string)
    ensures IndexedByPosition([] + SectionObjects(ini, section))
  {
    assert [] + SectionObjects(ini, section) == SectionObjects(ini, section);
  }

  /** Appending a section to a non-empty catalog numbers the new objects from
      0 again, so they no longer sit where their Index says. */
  lemma AppendedIndexRestartsAtZero(ini: IniFile, section: string, target: seq<TypeEntry>)
    requires |target| > 0
    requires section in ini.sections && |ini.sections[section]| > 0
    ensures !IndexedByPosition(target + SectionObjects(ini, section))
  {
    var all := target + SectionObjects(ini, section);
    assert all[|target|].index == 0 != |target|;
  }
}
