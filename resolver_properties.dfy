/** Properties of the property-path resolver, proved about the reference definition
    that the resolver method is shown to compute. */
module ResolverProperties {
  import opened Wrappers
  import opened Text
  import opened TypeShapes
  import opened PropertyPaths

  // ---- The searches: first match and last match ----

  /** The root type-name search returns the first entry whose stored type the segment names. */
  lemma {:induction false} ByTypeIsFirstMatch(table: TypeTable, shape: seq<FieldShape>, segment: string, k: nat)
    requires InTable(table, shape)
    requires k < |shape| && TypeNameMatches(table, shape[k], segment)
    requires forall j | 0 <= j < k :: !TypeNameMatches(table, shape[j], segment)
    ensures GetPropertyInfoByType(table, shape, segment) == Some(shape[k])
  {
    if k > 0 {
      assert shape[1..][k - 1] == shape[k];
      ByTypeIsFirstMatch(table, shape[1..], segment, k - 1);
    }
  }

  /** The root name search returns the first entry whose property the segment names. */
  lemma {:induction false} ByInfoIsFirstMatch(shape: seq<FieldShape>, segment: string, k: nat)
    requires k < |shape| && FieldNameMatches(shape[k], segment)
    requires forall j | 0 <= j < k :: !FieldNameMatches(shape[j], segment)
    ensures GetPropertyInfoByInfo(shape, segment) == Some(shape[k])
  {
    if k > 0 {
      assert shape[1..][k - 1] == shape[k];
      ByInfoIsFirstMatch(shape[1..], segment, k - 1);
    }
  }

  /** The property lookup by name returns the first property the name matches. */
  lemma {:induction false} FindPropertyIsFirstMatch(props: seq<Property>, name: string, k: nat)
    requires k < |props| && NameMatches(props[k], name)
    requires forall j | 0 <= j < k :: !NameMatches(props[j], name)
    ensures FindProperty(props, name) == Some(props[k])
  {
    if k > 0 {
      assert props[1..][k - 1] == props[k];
      FindPropertyIsFirstMatch(props[1..], name, k - 1);
    }
  }

  /** The fallback by effective-type name returns the last property it matches. */
  lemma {:induction false} FallbackIsLastMatch(table: TypeTable, props: seq<Property>, segment: string, k: nat)
    requires ValidTable(table) && forall p | p in props :: p.declaredType < |table|
    requires k < |props| && EffectiveTypeNameMatches(table, props[k], segment)
    requires forall j | k < j < |props| :: !EffectiveTypeNameMatches(table, props[j], segment)
    ensures LastByEffectiveTypeName(table, props, segment) == Some(props[k])
  {
    if k < |props| - 1 {
      var front := props[..|props| - 1];
      assert front[k] == props[k];
      assert forall j | k < j < |front| :: front[j] == props[j];
      FallbackIsLastMatch(table, front, segment, k);
    }
  }

  /** A chained lookup from a non-collection type with no property of that name picks the
      last property whose effective type is named by the segment. */
  lemma ChainedFallbackPicksLast(table: TypeTable, segment: string, stored: TypeId, k: nat)
    requires ValidTable(table) && stored < |table| && !table[stored].IsCollection()
    requires forall p | p in table[stored].properties :: !NameMatches(p, segment)
    requires k < |table[stored].properties|
    requires EffectiveTypeNameMatches(table, table[stored].properties[k], segment)
    requires forall j | k < j < |table[stored].properties| ::
               !EffectiveTypeNameMatches(table, table[stored].properties[j], segment)
    ensures LookupInChain(table, segment, stored) == Some(table[stored].properties[k])
  {
    FallbackIsLastMatch(table, table[stored].properties, segment, k);
  }

  // ---- Growth of the chain and the latch ----

  /** Over any run: the old chain is a prefix of the new one (entries are only appended),
      each segment that is not skipped adds exactly one entry, the root type-name rule
      fires at most once and never after the latch is set, and a set latch implies a
      non-empty chain. */
  lemma {:induction false} RunShape(table: TypeTable, root: seq<FieldShape>, r: Resolution, segments: seq<string>)
    requires ValidTable(table) && InTable(table, root) && InTable(table, r.chain)
    ensures r.chain <= Run(table, root, r, segments).chain
    ensures |Run(table, root, r, segments).chain|
         == |r.chain| + |segments| - multiset(Trace(table, root, r, segments))[Skipped]
    ensures Run(table, root, r, segments).latched == (r.latched || RootTypeName in Trace(table, root, r, segments))
    ensures multiset(Trace(table, root, r, segments))[RootTypeName] <= if r.latched then 0 else 1
    ensures (r.latched ==> r.chain != []) ==>
              (Run(table, root, r, segments).latched ==> Run(table, root, r, segments).chain != [])
    decreases |segments|
  {
    if segments != [] {
      var d := Decide(table, root, r, segments[0]);
      var s := Step(table, root, r, segments[0]);
      RunShape(table, root, s, segments[1..]);
      var rest := Trace(table, root, s, segments[1..]);
      assert Trace(table, root, r, segments) == [d] + rest;
      assert multiset([d] + rest) == multiset([d]) + multiset(rest);
      assert r.chain <= s.chain;
    }
  }

  lemma {:induction false} NoRootNameOnceNonEmpty(table: TypeTable, root: seq<FieldShape>, r: Resolution, segments: seq<string>)
    requires ValidTable(table) && InTable(table, root) && InTable(table, r.chain)
    requires r.chain != []
    ensures RootName !in Trace(table, root, r, segments)
    decreases |segments|
  {
    if segments != [] {
      NoRootNameOnceNonEmpty(table, root, Step(table, root, r, segments[0]), segments[1..]);
    }
  }

  /** The root name rule only applies while the chain is empty: starting from an empty
      chain, every segment before one it handles was skipped. */
  lemma {:induction false} RootNameOnlyWhileEmpty(table: TypeTable, root: seq<FieldShape>, r: Resolution, segments: seq<string>)
    requires ValidTable(table) && InTable(table, root) && InTable(table, r.chain)
    requires r.chain == []
    ensures forall j, k | 0 <= j < k < |segments| && Trace(table, root, r, segments)[k] == RootName ::
              Trace(table, root, r, segments)[j] == Skipped
    decreases |segments|
  {
    if segments != [] {
      var d := Decide(table, root, r, segments[0]);
      var s := Step(table, root, r, segments[0]);
      var rules := Trace(table, root, r, segments);
      var rest := Trace(table, root, s, segments[1..]);
      assert rules == [d] + rest;
      if d == Skipped {
        RootNameOnlyWhileEmpty(table, root, s, segments[1..]);
        forall j, k | 0 <= j < k < |segments| && rules[k] == RootName ensures rules[j] == Skipped {
          assert rules[k] == rest[k - 1];
          if j > 0 {
            assert rules[j] == rest[j - 1];
          }
        }
      } else {
        NoRootNameOnceNonEmpty(table, root, s, segments[1..]);
        forall k | 0 < k < |segments| ensures rules[k] != RootName {
          assert rules[k] == rest[k - 1];
        }
      }
    }
  }

  /** The latch fires at most once per resolution, and the chain never has more entries
      than the path has segments; each skipped segment leaves one entry fewer. */
  lemma ResolveBounds(table: TypeTable, entityType: TypeId, propertyName: string)
    requires ValidTable(table) && entityType < |table|
    ensures var root := EntityShape(table, table[entityType].properties);
            var segments := Split(propertyName, '.');
            var rules := Trace(table, root, Resolution([], false), segments);
            && multiset(rules)[RootTypeName] <= 1
            && |Resolve(table, entityType, propertyName)| == |segments| - multiset(rules)[Skipped]
            && |Resolve(table, entityType, propertyName)| <= |segments|
  {
    var root := EntityShape(table, table[entityType].properties);
    RunShape(table, root, Resolution([], false), Split(propertyName, '.'));
  }

  // ---- Skipping ----

  /** While the chain is empty, segments that match no root entry, by type name or by
      name, are skipped: the state does not change. */
  lemma {:induction false} UnmatchedSegmentsAreSkipped(table: TypeTable, root: seq<FieldShape>, r: Resolution, segments: seq<string>)
    requires ValidTable(table) && InTable(table, root) && r.chain == []
    requires forall i | 0 <= i < |segments| ::
               GetPropertyInfoByType(table, root, segments[i]).None? && GetPropertyInfoByInfo(root, segments[i]).None?
    ensures Run(table, root, r, segments) == r
    decreases |segments|
  {
    if segments != [] {
      assert Step(table, root, r, segments[0]) == r;
      assert forall i | 0 <= i < |segments| - 1 :: segments[1..][i] == segments[i + 1];
      UnmatchedSegmentsAreSkipped(table, root, r, segments[1..]);
    }
  }

  /** A path none of whose segments matches the root type yields an empty chain. */
  lemma UnresolvablePathYieldsEmptyChain(table: TypeTable, entityType: TypeId, propertyName: string)
    requires ValidTable(table) && entityType < |table|
    requires var root := EntityShape(table, table[entityType].properties);
             forall i | 0 <= i < |Split(propertyName, '.')| ::
               && GetPropertyInfoByType(table, root, Split(propertyName, '.')[i]).None?
               && GetPropertyInfoByInfo(root, Split(propertyName, '.')[i]).None?
    ensures Resolve(table, entityType, propertyName) == []
  {
    var root := EntityShape(table, table[entityType].properties);
    UnmatchedSegmentsAreSkipped(table, root, Resolution([], false), Split(propertyName, '.'));
  }

  /** A path without a dot resolves to the first root entry whose effective-type name it
      matches, failing that to the first root entry whose property name it matches,
      failing that to nothing. */
  lemma SingleSegment(table: TypeTable, entityType: TypeId, propertyName: string)
    requires ValidTable(table) && entityType < |table| && '.' !in propertyName
    ensures var root := EntityShape(table, table[entityType].properties);
            Resolve(table, entityType, propertyName) ==
              if GetPropertyInfoByType(table, root, propertyName).Some? then
                [GetPropertyInfoByType(table, root, propertyName).value]
              else if GetPropertyInfoByInfo(root, propertyName).Some? then
                [GetPropertyInfoByInfo(root, propertyName).value]
              else []
  {
    var root := EntityShape(table, table[entityType].properties);
    var init := Resolution([], false);
    SplitWithoutSeparator(propertyName, '.');
    assert [propertyName][1..] == [];
    assert Run(table, root, init, [propertyName]) == Step(table, root, init, propertyName);
  }

  // ---- Case-insensitivity ----

  lemma {:induction false} ByTypeIgnoresCase(table: TypeTable, shape: seq<FieldShape>, s: string, t: string)
    requires InTable(table, shape) && EqualsIgnoreCase(s, t)
    ensures GetPropertyInfoByType(table, shape, s) == GetPropertyInfoByType(table, shape, t)
  {
    if shape != [] {
      EqualsIgnoreCaseSubstitute(table[shape[0].fieldType].name, s, t);
      ByTypeIgnoresCase(table, shape[1..], s, t);
    }
  }

  lemma {:induction false} ByInfoIgnoresCase(shape: seq<FieldShape>, s: string, t: string)
    requires EqualsIgnoreCase(s, t)
    ensures GetPropertyInfoByInfo(shape, s) == GetPropertyInfoByInfo(shape, t)
  {
    if shape != [] {
      EqualsIgnoreCaseSubstitute(shape[0].property.name, s, t);
      ByInfoIgnoresCase(shape[1..], s, t);
    }
  }

  lemma {:induction false} FindPropertyIgnoresCase(props: seq<Property>, s: string, t: string)
    requires EqualsIgnoreCase(s, t)
    ensures FindProperty(props, s) == FindProperty(props, t)
  {
    if props != [] {
      EqualsIgnoreCaseSubstitute(props[0].name, s, t);
      FindPropertyIgnoresCase(props[1..], s, t);
    }
  }

  lemma {:induction false} FallbackIgnoresCase(table: TypeTable, props: seq<Property>, s: string, t: string)
    requires ValidTable(table) && forall p | p in props :: p.declaredType < |table|
    requires EqualsIgnoreCase(s, t)
    ensures LastByEffectiveTypeName(table, props, s) == LastByEffectiveTypeName(table, props, t)
  {
    if props != [] {
      EqualsIgnoreCaseSubstitute(table[EffectiveType(table, props[|props| - 1].declaredType)].name, s, t);
      FallbackIgnoresCase(table, props[..|props| - 1], s, t);
    }
  }

  /** One segment is handled the same way whatever its case. */
  lemma StepIgnoresCase(table: TypeTable, root: seq<FieldShape>, r: Resolution, s: string, t: string)
    requires ValidTable(table) && InTable(table, root) && InTable(table, r.chain)
    requires EqualsIgnoreCase(s, t)
    ensures Decide(table, root, r, s) == Decide(table, root, r, t)
    ensures Step(table, root, r, s) == Step(table, root, r, t)
  {
    ByTypeIgnoresCase(table, root, s, t);
    ByInfoIgnoresCase(root, s, t);
    if r.chain != [] {
      var stored := r.chain[|r.chain| - 1].fieldType;
      FindPropertyIgnoresCase(table[EffectiveType(table, stored)].properties, s, t);
      FallbackIgnoresCase(table, table[stored].properties, s, t);
    }
  }

  lemma {:induction false} RunIgnoresCase(table: TypeTable, root: seq<FieldShape>, r: Resolution, xs: seq<string>, ys: seq<string>)
    requires ValidTable(table) && InTable(table, root) && InTable(table, r.chain)
    requires PairwiseEqualsIgnoreCase(xs, ys)
    ensures Run(table, root, r, xs) == Run(table, root, r, ys)
    decreases |xs|
  {
    if xs != [] {
      StepIgnoresCase(table, root, r, xs[0], ys[0]);
      assert PairwiseEqualsIgnoreCase(xs[1..], ys[1..]) by {
        forall i | 0 <= i < |xs| - 1 ensures EqualsIgnoreCase(xs[1..][i], ys[1..][i]) {
          assert xs[1..][i] == xs[i + 1] && ys[1..][i] == ys[i + 1];
        }
      }
      RunIgnoresCase(table, root, Step(table, root, r, xs[0]), xs[1..], ys[1..]);
    }
  }

  /** Resolution is case-insensitive throughout: two paths that differ only in the case
      of ASCII letters resolve to the same chain. */
  lemma ResolveIgnoresCase(table: TypeTable, entityType: TypeId, p: string, q: string)
    requires ValidTable(table) && entityType < |table| && EqualsIgnoreCase(p, q)
    ensures Resolve(table, entityType, p) == Resolve(table, entityType, q)
  {
    SplitIgnoresCase(p, q);
    RunIgnoresCase(table, EntityShape(table, table[entityType].properties), Resolution([], false),
                   Split(p, '.'), Split(q, '.'));
  }
}
