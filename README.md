# SmartOrderBy resolver core, modelled in Dafny

SmartOrderBy lets a caller order records by string criteria: a dotted property path such as
`"Company.Employees.Name"` plus a direction token such as `"desc"`. This project models the
core of `src/SmartOrderBy/Extensions/Extensions.cs`:

- **Direction parsing** (`SortSelection.GetSortType`). The direction token becomes ASC or DESC.
- **Method selection** (`SortSelection.GetSortMethodName`). The caller gets one of `OrderBy`, `ThenBy`, `OrderByDescending` and `ThenByDescending`.
- **Member-name extraction** (`MemberNames.GetMemberName`). This works on a small expression datatype.
- **Entity-shape scan** (`TypeShapes.GetEntityProperties`). Each public property is paired with its effective type: the element type for a collection, otherwise the declared type.
- **Property-path resolver** (`PropertyPaths.PropertyInfos`). It splits the path on `.` and walks the segments with an index and a latch, appending (property, type) pairs by the three rules below.

An explicit type table replaces .NET reflection (`TypeShapes.TypeTable`). A type has a short name, an optional element type (present exactly when the type is a generic collection) and a list of properties, in the order reflection returns them, each with a name and a declared type.

The resolver appends at most one entry per segment, chosen by `PropertyPaths.Decide`:

1. **Root type name.** The first root entry whose stored (effective) type name equals the segment, ignoring case, is appended while the latch is unset. This sets the latch.
2. **Chained lookup.** When the chain is non-empty, the lookup starts from the last entry's stored type. A collection is searched through its element type, by property name only. Any other type is searched by name first. Failing that, each property is tried by its effective-type name, and the last match wins. The appended entry carries the found property's declared type.
3. **Root property name.** While the chain is empty, the first root entry whose property name matches is appended. The latch is not set.

A segment that matches nothing under the rule that applies is skipped.

The imperative parts of the source stay imperative:
- `PropertyInfos` runs a `for` loop with the index and the latch.
- `GetEntityProperties` builds its list in a loop.
- `GetPropertyInfo` runs the overwrite-on-match fallback loop.

Each method is proved equal to a functional definition:
- `PropertyPaths.Resolve`, a left fold of `PropertyPaths.Step` over the segments.
- `TypeShapes.EntityShape`.
- `PropertyPaths.LookupInChain`.

The lemmas in `ResolverProperties` and `Scenarios` are stated about those definitions.

## Model

| member | source | states |
|---|---|---|
| SortSelection.GetSortType | src/SmartOrderBy/Extensions/Extensions.cs:13-24 | DESC exactly when the token is present and is one of "desc", "descending", "d"; null, empty, ascending and all other tokens give ASC |
| SortSelection.GetSortTypeBoundaries | src/SmartOrderBy/Extensions/Extensions.cs:15-23 | null and "" give ASC; "desc", "descending", "d" give DESC; "DESC", "Desc", "sideways" give ASC (exact, case-sensitive) |
| SortSelection.GetSortMethodName | src/SmartOrderBy/Extensions/Extensions.cs:26-33 | the name is one of four strings; it starts with "OrderBy" iff the criterion is primary, with "ThenBy" iff it is not, and ends with "Descending" iff the token parses to DESC |
| SortSelection.SortMethodNameRoundTrip | src/SmartOrderBy/Extensions/Extensions.cs:26-33 | the name determines both the position and the direction (the four combinations give four distinct names) |
| MemberNames.GetMemberName | src/SmartOrderBy/Extensions/Extensions.cs:35-49 | a member access, bare or under one unary node, gives its name; a non-empty result always comes from such a shape; never fails |
| MemberNames.GetMemberNameUnrecognised | src/SmartOrderBy/Extensions/Extensions.cs:41-48 | other shapes, a unary node over a non-member, and nested unary nodes all give "" |
| TypeShapes.EffectiveType | src/SmartOrderBy/Extensions/Extensions.cs:114-116 | a collection stands for its element type (its first generic argument), any other type for itself |
| TypeShapes.EntityShape | src/SmartOrderBy/Extensions/Extensions.cs:108-120 | same length and order as the property list; entry i pairs property i with its element type when it is a collection, else its declared type |
| TypeShapes.GetEntityProperties | src/SmartOrderBy/Extensions/Extensions.cs:108-120 | the list built one property at a time is exactly the entity shape |
| PropertyPaths.GetPropertyInfoByType | src/SmartOrderBy/Extensions/Extensions.cs:100-102 | a found entry is in the shape and its stored type name matches the segment ignoring case; none is found iff no entry matches |
| ResolverProperties.ByTypeIsFirstMatch | src/SmartOrderBy/Extensions/Extensions.cs:100-102 | the root type-name search returns the first matching entry in the table's property order |
| PropertyPaths.GetPropertyInfoByInfo | src/SmartOrderBy/Extensions/Extensions.cs:104-106 | a found entry is in the shape and its property name matches ignoring case; none is found iff no entry matches |
| ResolverProperties.ByInfoIsFirstMatch | src/SmartOrderBy/Extensions/Extensions.cs:104-106 | the root name search returns the first matching entry |
| PropertyPaths.FindProperty | src/SmartOrderBy/Extensions/Extensions.cs:130-138 | the case-insensitive property lookup returns a property of the type whose name matches, and fails iff none does |
| ResolverProperties.FindPropertyIsFirstMatch | src/SmartOrderBy/Extensions/Extensions.cs:130-138 | the property lookup returns the first property whose name matches |
| PropertyPaths.LastByEffectiveTypeName | src/SmartOrderBy/Extensions/Extensions.cs:140-161 | a found property's effective-type name matches the segment; none is found iff no property matches |
| ResolverProperties.FallbackIsLastMatch | src/SmartOrderBy/Extensions/Extensions.cs:141-161 | the fallback returns the last matching property in the table's property order (each match overwrites the previous one) |
| PropertyPaths.LookupInChain | src/SmartOrderBy/Extensions/Extensions.cs:122-165 | the result is a property of the unwrapped type; it matches by name, or by effective-type name only for a non-collection with no name match; it fails iff neither search finds anything |
| PropertyPaths.GetPropertyInfo | src/SmartOrderBy/Extensions/Extensions.cs:122-165 | the method, with its overwrite-on-match loop, computes the chained lookup from the entry's stored type |
| ResolverProperties.ChainedFallbackPicksLast | src/SmartOrderBy/Extensions/Extensions.cs:137-161 | from a non-collection with no property of that name, the last property whose effective-type name matches is chosen |
| PropertyPaths.Decide | src/SmartOrderBy/Extensions/Extensions.cs:62-94 | the full decision table: rule 1 iff the latch is unset and a root type name matches; otherwise the chained rule iff the chain is non-empty and the chained lookup succeeds, rule 3 iff the chain is empty and a root name matches, and the segment is skipped iff the applicable lookup fails |
| PropertyPaths.Step | src/SmartOrderBy/Extensions/Extensions.cs:64-93 | a skipped segment changes nothing; otherwise exactly one entry is appended and the old entries are kept; the latch is set only by rule 1; a rule-1 entry is the root entry the type-name search found (line 64) and its type name matches the segment; a rule-3 entry is the root entry the name search found (line 86) and its property name matches; a chained entry is the property the chained lookup found (line 76), matching by name or effective-type name, a property of the last entry's unwrapped type, and it carries its declared type |
| PropertyPaths.Run | src/SmartOrderBy/Extensions/Extensions.cs:62-95 | handling segments left to right only appends: the old chain is a prefix of the new one, at most one entry is added per segment, and every entry refers to table types |
| PropertyPaths.Resolve | src/SmartOrderBy/Extensions/Extensions.cs:51-98 | the reference definition of the resolver (a left fold of `Step` over the `.`-split segments from an empty chain and an unset latch); the chain is never longer than the segment count and mentions only types of the table |
| PropertyPaths.PropertyInfos | src/SmartOrderBy/Extensions/Extensions.cs:51-98 | the loop with its index and latch computes `Resolve` and yields at most one entry per segment; the index is always the position of the last entry |
| ResolverProperties.RunShape | src/SmartOrderBy/Extensions/Extensions.cs:57-95 | entries are only appended; the chain grows by one for each segment that is not skipped; rule 1 fires at most once and never once latched; a set latch implies a non-empty chain |
| ResolverProperties.RootNameOnlyWhileEmpty | src/SmartOrderBy/Extensions/Extensions.cs:74-93 | from an empty chain, every segment before one that rule 3 handles was skipped |
| ResolverProperties.ResolveBounds | src/SmartOrderBy/Extensions/Extensions.cs:57-95 | rule 1 fires at most once per resolution; the chain length is the segment count minus the skipped segments, so never more than the segment count |
| ResolverProperties.UnmatchedSegmentsAreSkipped | src/SmartOrderBy/Extensions/Extensions.cs:84-89 | while the chain is empty, segments that match no root entry by type name or name leave the state unchanged |
| ResolverProperties.UnresolvablePathYieldsEmptyChain | src/SmartOrderBy/Extensions/Extensions.cs:78-89 | a path none of whose segments matches the root yields an empty chain, without error |
| ResolverProperties.SingleSegment | src/SmartOrderBy/Extensions/Extensions.cs:62-93 | a dot-free path resolves to the first root type-name match, else the first root name match, else nothing |
| ResolverProperties.StepIgnoresCase | src/SmartOrderBy/Extensions/Extensions.cs:100-161 | a segment is handled identically whatever the case of its letters |
| ResolverProperties.ResolveIgnoresCase | src/SmartOrderBy/Extensions/Extensions.cs:51-165 | two paths equal up to the case of letters resolve to the same chain |
| Text.FoldCase | src/SmartOrderBy/Extensions/Extensions.cs:102 | the folded character is never an upper-case ASCII letter; an upper-case letter becomes its lower-case partner and every other character is left alone |
| Text.FoldCaseAlike | src/SmartOrderBy/Extensions/Extensions.cs:106 | under ASCII folding, two characters compare equal ignoring case exactly when they are equal or the two cases of one ASCII letter |
| Text.EqualsIgnoreCaseIsFoldedEquality | src/SmartOrderBy/Extensions/Extensions.cs:149-156 | `EqualsIgnoreCase`, the model of `string.Equals(.., StringComparison.OrdinalIgnoreCase)` at lines 102, 106, 149 and 156 and of the `BindingFlags.IgnoreCase` lookups at lines 133 and 138, holds exactly when the two folded strings are equal |
| Text.Split | src/SmartOrderBy/Extensions/Extensions.cs:57 | there is at least one piece and no piece contains the separator |
| Text.JoinSplit | src/SmartOrderBy/Extensions/Extensions.cs:57 | joining the pieces with the separator gives back the path |
| Text.SplitJoin | src/SmartOrderBy/Extensions/Extensions.cs:57 | splitting a join of separator-free pieces gives back the pieces |
| Text.SplitIgnoresCase | src/SmartOrderBy/Extensions/Extensions.cs:57 | paths equal up to case split into pieces equal up to case |
| Scenarios.CompanyShape | src/SmartOrderBy/Extensions/Extensions.cs:112-117 | Company's shape pairs Employees (List<Person>) with Person |
| Scenarios.CompanyTitle | src/SmartOrderBy/Extensions/Extensions.cs:64-82 | "Company.Title" on Person resolves to [Company, Title] |
| Scenarios.CompanyTitleAnyCase | src/SmartOrderBy/Extensions/Extensions.cs:102-138 | "company.TITLE" resolves to the same chain as "Company.Title" |
| Scenarios.CompanyEmployeesName | src/SmartOrderBy/Extensions/Extensions.cs:76-133 | "Company.Employees.Name" resolves to [Company, Employees typed List<Person>, Name] through the collection |
| Scenarios.CompanyAlone | src/SmartOrderBy/Extensions/Extensions.cs:64-71 | "Company" resolves to the single entry Company with type Company |
| Scenarios.NameThenCompany | src/SmartOrderBy/Extensions/Extensions.cs:64-92 | "Name.Company" resolves to [Name, Company]: rule 3 leaves the latch unset and rule 1 then appends Company from the root |
| Scenarios.CompanyPerson | src/SmartOrderBy/Extensions/Extensions.cs:140-161 | "Company.Person" falls back to effective-type names and resolves to [Company, Employees] |
| Scenarios.TypeNameBeatsPropertyName | src/SmartOrderBy/Extensions/Extensions.cs:64-71 | on Person { Employer: Company, Company: Company } the path "Company" resolves to [Employer], not [Company]: the root type-name match (first by property order, line 102) runs before any name match |
| Scenarios.RootTypeNameInterruptsChain | src/SmartOrderBy/Extensions/Extensions.cs:62-93 | on Person { Home: Address, Work: Company }, Company { Address: Location }, Location { Zip: String } the path "Work.Address.Zip" resolves to [Work, Home], two entries for three segments, although the chained lookups for Address and Zip would succeed |
| Scenarios.CompanyBogusTitle | src/SmartOrderBy/Extensions/Extensions.cs:76-82 | "Company.Bogus.Title" skips the unknown middle segment and resolves to [Company, Title] |

Notes on behaviour the model follows from the code:

- **Chained entries keep the declared type.** A chained entry stores the property's declared type (line 81), not its effective type. After `Company.Employees`, the entry's type is `List<Person>`; the next lookup unwraps it (lines 128-133). Root entries store the effective type (lines 68 and 91).
- **First match at the root, last match in the chain.** Type-name matching at the root keeps the first match (line 102). The type-name fallback inside the chain keeps the last match (lines 141-161).
- **Rule 3 leaves the latch unset** (lines 86-92). A later segment can therefore still be appended from the root by its type name, even when it is not a property of the previous entry (`Scenarios.NameThenCompany`).

Two properties one might expect of the resolver do not hold for the code as written; both are shown by lemmas:

- **A path naming a root property need not resolve to that property, in any casing.** Rule 1 matches type names before rule 3 matches property names, and takes the first property in order whose type name matches. On Person { Employer: Company, Company: Company }, the path `"Company"` gives `[Employer]` (`Scenarios.TypeNameBeatsPropertyName`).
- **A path naming a real nested chain need not give one entry per segment.** When rule 3 takes the first segment, the latch stays unset. A later segment that names a root property's type is then taken from the root by rule 1, even when the chained lookup would have found a real property. On `"Work.Address.Zip"`, `Address` is taken as the root property Home, `Zip` is then looked up in Address and skipped, and the chain is `[Work, Home]` (`Scenarios.RootTypeNameInterruptsChain`).

Whether the authors intended this cannot be read from the code, so it is recorded as behaviour, not as a defect. The model keeps the behaviour as written.

## Left out

- **Reflection.** The .NET reflection calls `GetProperties`, `GetProperty` with `BindingFlags` and `GetGenericArguments` are replaced by the explicit type table.
- **Property order.** .NET's `GetProperties()` does not guarantee declaration order. The model takes the properties in the order the table lists them, standing for the order reflection returns. First-match and last-match results depend on that order.
- **Static properties.** The table does not distinguish static from instance properties; every listed property is treated as a public instance property.
- PropertyPaths.FindProperty: when two properties differ only in case, it returns the first of them. `GetProperty` throws `AmbiguousMatchException` in that case; the exception is not modelled.
- **Non-generic enumerables.** A type has an element type exactly when it is a collection. A non-generic enumerable has no generic argument, so the source would meet a null type and throw; that case is not modelled.
- **Helpers defined elsewhere.** `IsEnumarableType`, `IsNull`, `IsNotNull` and `IsNotNullAndAny` are not part of this model. The collection test is the element-type field, null checks are `Option` tests, and "not null and any" is a non-empty chain.
- **Case-insensitive comparison.** Ordinal ignore-case comparison is modelled as ASCII case folding; the rest of Unicode case mapping is not modelled.
- **Sorting itself.** Building LINQ `Expression` trees, invoking `OrderBy`/`ThenBy` by the selected name, and sorting records live in other files and are not part of this model.
- **Enum and record types.** `Sorting`, `OrderType` and `SortType` are minimal datatypes. The non-primary `OrderType` value is called `Then` here. A null direction token is `None`.
- **Null path.** A null path string (where `Split` would throw) cannot occur, because Dafny strings are never null.
- **Idempotence.** Resolving the same pair twice gives the same chain because `Resolve` is a function; no separate lemma states it.
