/** The property-path resolver: splits a dotted path and walks it against a root type,
    building the chain of (property, type) pairs it denotes. */
module PropertyPaths {
  import opened Wrappers
  import opened Text
  import opened TypeShapes

  /** The segment equals, up to case, the name of the entry's stored type. */
  predicate TypeNameMatches(table: TypeTable, f: FieldShape, segment: string)
    requires f.fieldType < |table|
  {
    EqualsIgnoreCase(table[f.fieldType].name, segment)
  }

  /** The segment equals, up to case, the name of the entry's property. */
  predicate FieldNameMatches(f: FieldShape, segment: string)
  {
    EqualsIgnoreCase(f.property.name, segment)
  }

  /** The segment equals, up to case, the property's name. */
  predicate NameMatches(p: Property, segment: string)
  {
    EqualsIgnoreCase(p.name, segment)
  }

  /** The segment equals, up to case, the name of the property's effective type. */
  predicate EffectiveTypeNameMatches(table: TypeTable, p: Property, segment: string)
    requires ValidTable(table) && p.declaredType < |table|
  {
    EqualsIgnoreCase(table[EffectiveType(table, p.declaredType)].name, segment)
  }

  /** First entry of the entity shape whose stored type is named by the segment. */
  function GetPropertyInfoByType(table: TypeTable, entityProperties: seq<FieldShape>, property: string): (r: Option<FieldShape>)
    requires InTable(table, entityProperties)
    ensures r.Some? ==> r.value in entityProperties && TypeNameMatches(table, r.value, property)
    ensures r.None? <==> forall f | f in entityProperties :: !TypeNameMatches(table, f, property)
  {
    if entityProperties == [] then None
    else if TypeNameMatches(table, entityProperties[0], property) then Some(entityProperties[0])
    else GetPropertyInfoByType(table, entityProperties[1..], property)
  }

  /** First entry of the entity shape whose property is named by the segment. */
  function GetPropertyInfoByInfo(entityProperties: seq<FieldShape>, property: string): (r: Option<FieldShape>)
    ensures r.Some? ==> r.value in entityProperties && FieldNameMatches(r.value, property)
    ensures r.None? <==> forall f | f in entityProperties :: !FieldNameMatches(f, property)
  {
    if entityProperties == [] then None
    else if FieldNameMatches(entityProperties[0], property) then Some(entityProperties[0])
    else GetPropertyInfoByInfo(entityProperties[1..], property)
  }

  /** Case-insensitive lookup of a public property by name (the first in the table's property order). */
  function FindProperty(props: seq<Property>, name: string): (r: Option<Property>)
    ensures r.Some? ==> r.value in props && NameMatches(r.value, name)
    ensures r.None? <==> forall p | p in props :: !NameMatches(p, name)
  {
    if props == [] then None
    else if NameMatches(props[0], name) then Some(props[0])
    else FindProperty(props[1..], name)
  }

  /** The last property, in the table's property order, whose effective type is named by the segment. */
  function LastByEffectiveTypeName(table: TypeTable, props: seq<Property>, property: string): (r: Option<Property>)
    requires ValidTable(table) && forall p | p in props :: p.declaredType < |table|
    ensures r.Some? ==> r.value in props && EffectiveTypeNameMatches(table, r.value, property)
    ensures r.None? <==> forall p | p in props :: !EffectiveTypeNameMatches(table, p, property)
  {
    if props == [] then None
    else if EffectiveTypeNameMatches(table, props[|props| - 1], property) then Some(props[|props| - 1])
    else LastByEffectiveTypeName(table, props[..|props| - 1], property)
  }

  /** The chained lookup from an entry whose stored type is `stored`. A collection is
      searched through its element type, by name only. Any other type is searched by name,
      and only when no name matches, by effective-type name. */
  function LookupInChain(table: TypeTable, property: string, stored: TypeId): (r: Option<Property>)
    requires ValidTable(table) && stored < |table|
    ensures r.Some? ==> r.value in table[EffectiveType(table, stored)].properties
    ensures r.Some? ==>
              (NameMatches(r.value, property)
               || (!table[stored].IsCollection() && EffectiveTypeNameMatches(table, r.value, property)))
    ensures r.Some? && !NameMatches(r.value, property) ==>
              forall p | p in table[stored].properties :: !NameMatches(p, property)
    ensures r.None? <==>
              && (forall p | p in table[EffectiveType(table, stored)].properties :: !NameMatches(p, property))
              && (table[stored].IsCollection()
                  || forall p | p in table[stored].properties :: !EffectiveTypeNameMatches(table, p, property))
  {
    if table[stored].IsCollection() then
      FindProperty(table[table[stored].elementType.value].properties, property)
    else
      match FindProperty(table[stored].properties, property)
      case Some(p) => Some(p)
      case None => LastByEffectiveTypeName(table, table[stored].properties, property)
  }

  /** The chained lookup with its overwrite-on-match fallback: a loop over the properties
      in which every matching property replaces the previous one. */
  method GetPropertyInfo(table: TypeTable, property: string, properties: FieldShape) returns (propertyInfo: Option<Property>)
    requires ValidTable(table) && properties.fieldType < |table|
    ensures propertyInfo == LookupInChain(table, property, properties.fieldType)
  {
    var t := properties.fieldType;
    if table[t].IsCollection() {
      propertyInfo := FindProperty(table[table[t].elementType.value].properties, property);
    } else {
      propertyInfo := FindProperty(table[t].properties, property);
      if propertyInfo.None? {
        var props := table[t].properties;
        for i := 0 to |props|
          invariant propertyInfo == LastByEffectiveTypeName(table, props[..i], property)
        {
          var prop := props[i];
          if table[prop.declaredType].IsCollection() {
            var elementType := table[prop.declaredType].elementType.value;
            if EqualsIgnoreCase(table[elementType].name, property) {
              propertyInfo := Some(prop);
            }
          } else {
            if EqualsIgnoreCase(table[prop.declaredType].name, property) {
              propertyInfo := Some(prop);
            }
          }
          assert props[..i + 1][..i] == props[..i];
        }
        assert props[..|props|] == props;
      }
    }
  }

  /** The resolver's state between segments: the chain so far and the latch that records
      that a segment has matched a root property by its type name. */
  datatype Resolution = Resolution(chain: seq<FieldShape>, latched: bool)

  /** Which rule handles a segment. */
  datatype Rule =
    | RootTypeName   // matched a root entry by its effective-type name; sets the latch
    | Chained        // matched from the last chain entry's stored type
    | RootName       // matched a root entry by its property name; chain was empty
    | Skipped        // nothing matched under the rule that applied

  /** The decision table for one segment. */
  function Decide(table: TypeTable, root: seq<FieldShape>, r: Resolution, segment: string): (rule: Rule)
    requires ValidTable(table) && InTable(table, root) && InTable(table, r.chain)
    ensures rule == RootTypeName <==> !r.latched && GetPropertyInfoByType(table, root, segment).Some?
    ensures rule == Chained <==>
              && !(!r.latched && GetPropertyInfoByType(table, root, segment).Some?)
              && r.chain != []
              && LookupInChain(table, segment, r.chain[|r.chain| - 1].fieldType).Some?
    ensures rule == RootName <==>
              && !(!r.latched && GetPropertyInfoByType(table, root, segment).Some?)
              && r.chain == []
              && GetPropertyInfoByInfo(root, segment).Some?
    ensures rule == Skipped <==>
              && !(!r.latched && GetPropertyInfoByType(table, root, segment).Some?)
              && (if r.chain != [] then LookupInChain(table, segment, r.chain[|r.chain| - 1].fieldType).None?
                  else GetPropertyInfoByInfo(root, segment).None?)
  {
    if GetPropertyInfoByType(table, root, segment).Some? && !r.latched then RootTypeName
    else if r.chain != [] then
      if LookupInChain(table, segment, r.chain[|r.chain| - 1].fieldType).Some? then Chained else Skipped
    else if GetPropertyInfoByInfo(root, segment).Some? then RootName
    else Skipped
  }

  /** The resolver's effect on its state for one segment. Root entries keep the stored
      effective type; a chained entry carries the found property's declared type. */
  function Step(table: TypeTable, root: seq<FieldShape>, r: Resolution, segment: string): (r': Resolution)
    requires ValidTable(table) && InTable(table, root) && InTable(table, r.chain)
    ensures InTable(table, r'.chain)
    ensures Decide(table, root, r, segment) == Skipped ==> r' == r
    ensures Decide(table, root, r, segment) != Skipped ==>
              |r'.chain| == |r.chain| + 1 && r'.chain[..|r.chain|] == r.chain
    ensures r'.latched == (r.latched || Decide(table, root, r, segment) == RootTypeName)
    ensures Decide(table, root, r, segment) in {RootTypeName, RootName} ==> r'.chain[|r.chain|] in root
    ensures Decide(table, root, r, segment) == RootTypeName ==>
              && TypeNameMatches(table, r'.chain[|r.chain|], segment)
              && Some(r'.chain[|r.chain|]) == GetPropertyInfoByType(table, root, segment)
    ensures Decide(table, root, r, segment) == RootName ==>
              && FieldNameMatches(r'.chain[|r.chain|], segment)
              && Some(r'.chain[|r.chain|]) == GetPropertyInfoByInfo(root, segment)
    ensures Decide(table, root, r, segment) == Chained ==>
              && r'.chain[|r.chain|].fieldType == r'.chain[|r.chain|].property.declaredType
              && r'.chain[|r.chain|].property in
                   table[EffectiveType(table, r.chain[|r.chain| - 1].fieldType)].properties
              && Some(r'.chain[|r.chain|].property) == LookupInChain(table, segment, r.chain[|r.chain| - 1].fieldType)
              && (NameMatches(r'.chain[|r.chain|].property, segment)
                  || EffectiveTypeNameMatches(table, r'.chain[|r.chain|].property, segment))
  {
    match Decide(table, root, r, segment)
    case RootTypeName =>
      Resolution(r.chain + [GetPropertyInfoByType(table, root, segment).value], true)
    case Chained =>
      var p := LookupInChain(table, segment, r.chain[|r.chain| - 1].fieldType).value;
      Resolution(r.chain + [FieldShape(p, p.declaredType)], r.latched)
    case RootName =>
      Resolution(r.chain + [GetPropertyInfoByInfo(root, segment).value], r.latched)
    case Skipped => r
  }

  /** The state after handling `segments` from left to right. */
  function Run(table: TypeTable, root: seq<FieldShape>, r: Resolution, segments: seq<string>): (r': Resolution)
    requires ValidTable(table) && InTable(table, root) && InTable(table, r.chain)
    ensures InTable(table, r'.chain)
    ensures r.chain <= r'.chain && |r'.chain| <= |r.chain| + |segments|
    decreases |segments|
  {
    if segments == [] then r
    else Run(table, root, Step(table, root, r, segments[0]), segments[1..])
  }

  /** The rule applied to each of `segments`, in order. */
  function Trace(table: TypeTable, root: seq<FieldShape>, r: Resolution, segments: seq<string>): (rules: seq<Rule>)
    requires ValidTable(table) && InTable(table, root) && InTable(table, r.chain)
    ensures |rules| == |segments|
    decreases |segments|
  {
    if segments == [] then []
    else [Decide(table, root, r, segments[0])] + Trace(table, root, Step(table, root, r, segments[0]), segments[1..])
  }

  /** The chain a path resolves to from the root type: never longer than the path's
      segment count, and every type it mentions is in the table. */
  function Resolve(table: TypeTable, entityType: TypeId, propertyName: string): (chain: seq<FieldShape>)
    requires ValidTable(table) && entityType < |table|
    ensures |chain| <= |Split(propertyName, '.')|
    ensures InTable(table, chain)
  {
    Run(table, EntityShape(table, table[entityType].properties), Resolution([], false), Split(propertyName, '.')).chain
  }

  /** Resolves a dotted path: one pass over the segments, appending to the chain, moving
      `index` to the new last entry and setting the latch on the first root type-name match. */
  method PropertyInfos(table: TypeTable, entityType: TypeId, propertyName: string) returns (propertiesList: seq<FieldShape>)
    requires ValidTable(table) && entityType < |table|
    ensures propertiesList == Resolve(table, entityType, propertyName)
    ensures |propertiesList| <= |Split(propertyName, '.')|
  {
    propertiesList := [];
    var entityProperties := GetEntityProperties(table, entityType);
    var properties := Split(propertyName, '.');
    var index := -1;
    var findedMainPropertyInEntity := false;
    for i := 0 to |properties|
      invariant index == |propertiesList| - 1
      invariant |propertiesList| <= i
      invariant findedMainPropertyInEntity ==> propertiesList != []
      invariant InTable(table, propertiesList)
      invariant Run(table, entityProperties, Resolution(propertiesList, findedMainPropertyInEntity), properties[i..])
             == Run(table, entityProperties, Resolution([], false), properties)
    {
      ghost var before := Resolution(propertiesList, findedMainPropertyInEntity);
      assert properties[i..][1..] == properties[i + 1..];
      var property := properties[i];
      var entityPropertInfo := GetPropertyInfoByType(table, entityProperties, property);
      if entityPropertInfo.Some? && !findedMainPropertyInEntity {
        propertiesList := propertiesList + [entityPropertInfo.value];
        findedMainPropertyInEntity := true;
        index := index + 1;
      } else if propertiesList != [] {
        var propertyInfo := GetPropertyInfo(table, property, propertiesList[index]);
        if propertyInfo.None? {
          continue;
        }
        propertiesList := propertiesList + [FieldShape(propertyInfo.value, propertyInfo.value.declaredType)];
        index := index + 1;
      } else {
        entityPropertInfo := GetPropertyInfoByInfo(entityProperties, property);
        if entityPropertInfo.None? {
          continue;
        }
        propertiesList := propertiesList + [entityPropertInfo.value];
        index := index + 1;
      }
      assert Resolution(propertiesList, findedMainPropertyInEntity) == Step(table, entityProperties, before, property);
    }
  }
}
