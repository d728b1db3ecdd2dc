/** Worked resolutions over a small table: Person { Name: String, Company: Company } and
    Company { Title: String, Employees: List<Person> }. */
module Scenarios {
  import opened Wrappers
  import opened Text
  import opened TypeShapes
  import opened PropertyPaths
  import opened ResolverProperties

  const NameProp := Property("Name", 2)
  const CompanyProp := Property("Company", 1)
  const TitleProp := Property("Title", 2)
  const EmployeesProp := Property("Employees", 3)
  const CountProp := Property("Count", 4)

  /** 0 Person, 1 Company, 2 String, 3 List<Person> (short name "List`1"), 4 Int32. */
  const People: TypeTable := [
    TypeInfo("Person", None, [NameProp, CompanyProp]),
    TypeInfo("Company", None, [TitleProp, EmployeesProp]),
    TypeInfo("String", None, []),
    TypeInfo("List`1", Some(0), [CountProp]),
    TypeInfo("Int32", None, [])
  ]

  /** The root shape of Person: both properties keep their own type, neither is a collection. */
  lemma PersonShape()
    ensures ValidTable(People)
    ensures EntityShape(People, People[0].properties) == [FieldShape(NameProp, 2), FieldShape(CompanyProp, 1)]
  {
  }

  /** The root shape of Company: Employees is paired with its element type, Person. */
  lemma CompanyShape()
    ensures ValidTable(People)
    ensures EntityShape(People, People[1].properties) == [FieldShape(TitleProp, 2), FieldShape(EmployeesProp, 0)]
  {
  }

  lemma SplitPath(parts: seq<string>, path: string)
    requires |parts| >= 1 && (forall i | 0 <= i < |parts| :: '.' !in parts[i]) && Join(parts, '.') == path
    ensures Split(path, '.') == parts
  {
    SplitJoin(parts, '.');
  }

  lemma SplitCompanyTitle()
    ensures Split("Company.Title", '.') == ["Company", "Title"]
  {
    assert Join(["Title"], '.') == "Title";
    assert Join(["Company", "Title"], '.') == "Company" + "." + "Title";
    SplitPath(["Company", "Title"], "Company.Title");
  }

  lemma StepCompanyAtRoot()
    ensures ValidTable(People)
    ensures Step(People, EntityShape(People, People[0].properties), Resolution([], false), "Company")
         == Resolution([FieldShape(CompanyProp, 1)], true)
  {
    PersonShape();
    var root := EntityShape(People, People[0].properties);
    assert !TypeNameMatches(People, root[0], "Company");
    assert TypeNameMatches(People, root[1], "Company");
    ByTypeIsFirstMatch(People, root, "Company", 1);
  }

  lemma StepTitleFromCompany()
    ensures ValidTable(People)
    ensures Step(People, EntityShape(People, People[0].properties), Resolution([FieldShape(CompanyProp, 1)], true), "Title")
         == Resolution([FieldShape(CompanyProp, 1), FieldShape(TitleProp, 2)], true)
  {
    PersonShape();
    FindPropertyIsFirstMatch(People[1].properties, "Title", 0);
    assert LookupInChain(People, "Title", 1) == Some(TitleProp);
  }

  /** "Company.Title": the root type-name rule finds Company, the chained rule finds Title. */
  lemma CompanyTitle()
    ensures ValidTable(People)
    ensures Resolve(People, 0, "Company.Title") == [FieldShape(CompanyProp, 1), FieldShape(TitleProp, 2)]
  {
    PersonShape();
    var root := EntityShape(People, People[0].properties);
    SplitCompanyTitle();
    StepCompanyAtRoot();
    var r0 := Resolution([], false);
    var r1 := Resolution([FieldShape(CompanyProp, 1)], true);
    var r2 := Resolution([FieldShape(CompanyProp, 1), FieldShape(TitleProp, 2)], true);
    StepTitleFromCompany();
    assert Run(People, root, r0, ["Company", "Title"]) == Run(People, root, r1, ["Title"]);
    assert Run(People, root, r1, ["Title"]) == Run(People, root, r2, []);
  }

  lemma CaseVariant()
    ensures EqualsIgnoreCase("company.TITLE", "Company.Title")
  {
    var a, b := "company.TITLE", "Company.Title";
    forall i | 0 <= i < |a| ensures FoldCase(a[i]) == FoldCase(b[i]) {
    }
  }

  /** "company.TITLE" resolves exactly as "Company.Title": matching ignores case. */
  lemma CompanyTitleAnyCase()
    ensures ValidTable(People)
    ensures Resolve(People, 0, "company.TITLE") == [FieldShape(CompanyProp, 1), FieldShape(TitleProp, 2)]
  {
    CompanyTitle();
    CaseVariant();
    ResolveIgnoresCase(People, 0, "company.TITLE", "Company.Title");
  }

  lemma SplitCompanyEmployeesName()
    ensures Split("Company.Employees.Name", '.') == ["Company", "Employees", "Name"]
  {
    assert Join(["Name"], '.') == "Name";
    assert Join(["Employees", "Name"], '.') == "Employees" + "." + "Name";
    assert Join(["Company", "Employees", "Name"], '.') == "Company" + "." + "Employees" + "." + "Name";
    SplitPath(["Company", "Employees", "Name"], "Company.Employees.Name");
  }

  lemma StepEmployeesFromCompany()
    ensures ValidTable(People)
    ensures Step(People, EntityShape(People, People[0].properties), Resolution([FieldShape(CompanyProp, 1)], true), "Employees")
         == Resolution([FieldShape(CompanyProp, 1), FieldShape(EmployeesProp, 3)], true)
  {
    PersonShape();
    FindPropertyIsFirstMatch(People[1].properties, "Employees", 1);
    assert LookupInChain(People, "Employees", 1) == Some(EmployeesProp);
  }

  lemma StepNameThroughEmployees()
    ensures ValidTable(People)
    ensures Step(People, EntityShape(People, People[0].properties),
                 Resolution([FieldShape(CompanyProp, 1), FieldShape(EmployeesProp, 3)], true), "Name")
         == Resolution([FieldShape(CompanyProp, 1), FieldShape(EmployeesProp, 3), FieldShape(NameProp, 2)], true)
  {
    PersonShape();
    FindPropertyIsFirstMatch(People[0].properties, "Name", 0);
    assert LookupInChain(People, "Name", 3) == Some(NameProp);
  }

  /** "Company.Employees.Name": the chained lookup steps through the collection List<Person>
      into Person. The Employees entry carries its declared type, List<Person>. */
  lemma CompanyEmployeesName()
    ensures ValidTable(People)
    ensures Resolve(People, 0, "Company.Employees.Name")
         == [FieldShape(CompanyProp, 1), FieldShape(EmployeesProp, 3), FieldShape(NameProp, 2)]
  {
    PersonShape();
    var root := EntityShape(People, People[0].properties);
    SplitCompanyEmployeesName();
    StepCompanyAtRoot();
    StepEmployeesFromCompany();
    StepNameThroughEmployees();
    var r0 := Resolution([], false);
    var r1 := Resolution([FieldShape(CompanyProp, 1)], true);
    var r2 := Resolution([FieldShape(CompanyProp, 1), FieldShape(EmployeesProp, 3)], true);
    var r3 := Resolution([FieldShape(CompanyProp, 1), FieldShape(EmployeesProp, 3), FieldShape(NameProp, 2)], true);
    assert Run(People, root, r0, ["Company", "Employees", "Name"]) == Run(People, root, r1, ["Employees", "Name"]);
    assert Run(People, root, r1, ["Employees", "Name"]) == Run(People, root, r2, ["Name"]);
    assert Run(People, root, r2, ["Name"]) == Run(People, root, r3, []);
  }

  /** "Company" alone: a one-entry chain whose type is Company. */
  lemma CompanyAlone()
    ensures ValidTable(People)
    ensures Resolve(People, 0, "Company") == [FieldShape(CompanyProp, 1)]
  {
    PersonShape();
    var root := EntityShape(People, People[0].properties);
    SplitWithoutSeparator("Company", '.');
    StepCompanyAtRoot();
    assert Run(People, root, Resolution([], false), ["Company"])
        == Run(People, root, Resolution([FieldShape(CompanyProp, 1)], true), []);
  }

  lemma SplitNameCompany()
    ensures Split("Name.Company", '.') == ["Name", "Company"]
  {
    assert Join(["Company"], '.') == "Company";
    assert Join(["Name", "Company"], '.') == "Name" + "." + "Company";
    SplitPath(["Name", "Company"], "Name.Company");
  }

  lemma StepNameAtRoot()
    ensures ValidTable(People)
    ensures Step(People, EntityShape(People, People[0].properties), Resolution([], false), "Name")
         == Resolution([FieldShape(NameProp, 2)], false)
  {
    PersonShape();
    var root := EntityShape(People, People[0].properties);
    assert !TypeNameMatches(People, root[0], "Name") && !TypeNameMatches(People, root[1], "Name");
    ByInfoIsFirstMatch(root, "Name", 0);
  }

  lemma StepCompanyAfterName()
    ensures ValidTable(People)
    ensures Step(People, EntityShape(People, People[0].properties), Resolution([FieldShape(NameProp, 2)], false), "Company")
         == Resolution([FieldShape(NameProp, 2), FieldShape(CompanyProp, 1)], true)
  {
    PersonShape();
    var root := EntityShape(People, People[0].properties);
    assert !TypeNameMatches(People, root[0], "Company");
    ByTypeIsFirstMatch(People, root, "Company", 1);
  }

  /** "Name.Company": the root name rule takes Name without setting the latch, so the
      root type-name rule still fires for Company and appends it from the root, although
      Company is not a property of String. */
  lemma NameThenCompany()
    ensures ValidTable(People)
    ensures Resolve(People, 0, "Name.Company") == [FieldShape(NameProp, 2), FieldShape(CompanyProp, 1)]
  {
    PersonShape();
    var root := EntityShape(People, People[0].properties);
    SplitNameCompany();
    StepNameAtRoot();
    StepCompanyAfterName();
    var r0 := Resolution([], false);
    var r1 := Resolution([FieldShape(NameProp, 2)], false);
    var r2 := Resolution([FieldShape(NameProp, 2), FieldShape(CompanyProp, 1)], true);
    assert Run(People, root, r0, ["Name", "Company"]) == Run(People, root, r1, ["Company"]);
    assert Run(People, root, r1, ["Company"]) == Run(People, root, r2, []);
  }

  lemma SplitCompanyPerson()
    ensures Split("Company.Person", '.') == ["Company", "Person"]
  {
    assert Join(["Person"], '.') == "Person";
    assert Join(["Company", "Person"], '.') == "Company" + "." + "Person";
    SplitPath(["Company", "Person"], "Company.Person");
  }

  lemma StepPersonFromCompany()
    ensures ValidTable(People)
    ensures Step(People, EntityShape(People, People[0].properties), Resolution([FieldShape(CompanyProp, 1)], true), "Person")
         == Resolution([FieldShape(CompanyProp, 1), FieldShape(EmployeesProp, 3)], true)
  {
    PersonShape();
    assert FindProperty(People[1].properties, "Person") == None;
    ChainedFallbackPicksLast(People, "Person", 1, 1);
  }

  /** "Company.Person": Company has no property named Person, so the chained lookup falls
      back to effective-type names and finds Employees, whose elements are Person. */
  lemma CompanyPerson()
    ensures ValidTable(People)
    ensures Resolve(People, 0, "Company.Person") == [FieldShape(CompanyProp, 1), FieldShape(EmployeesProp, 3)]
  {
    PersonShape();
    var root := EntityShape(People, People[0].properties);
    SplitCompanyPerson();
    StepCompanyAtRoot();
    StepPersonFromCompany();
    var r0 := Resolution([], false);
    var r1 := Resolution([FieldShape(CompanyProp, 1)], true);
    var r2 := Resolution([FieldShape(CompanyProp, 1), FieldShape(EmployeesProp, 3)], true);
    assert Run(People, root, r0, ["Company", "Person"]) == Run(People, root, r1, ["Person"]);
    assert Run(People, root, r1, ["Person"]) == Run(People, root, r2, []);
  }

  lemma SplitCompanyBogusTitle()
    ensures Split("Company.Bogus.Title", '.') == ["Company", "Bogus", "Title"]
  {
    assert Join(["Title"], '.') == "Title";
    assert Join(["Bogus", "Title"], '.') == "Bogus" + "." + "Title";
    assert Join(["Company", "Bogus", "Title"], '.') == "Company" + "." + "Bogus" + "." + "Title";
    SplitPath(["Company", "Bogus", "Title"], "Company.Bogus.Title");
  }

  lemma StepBogusFromCompany()
    ensures ValidTable(People)
    ensures Step(People, EntityShape(People, People[0].properties), Resolution([FieldShape(CompanyProp, 1)], true), "Bogus")
         == Resolution([FieldShape(CompanyProp, 1)], true)
  {
    PersonShape();
    assert FoldCase("Title"[0]) != FoldCase("Bogus"[0]);
    assert !NameMatches(TitleProp, "Bogus");
    assert FindProperty(People[1].properties, "Bogus") == None;
    assert LastByEffectiveTypeName(People, People[1].properties, "Bogus") == None;
  }

  /** "Company.Bogus.Title": the unknown middle segment is skipped and the rest still resolves. */
  lemma CompanyBogusTitle()
    ensures ValidTable(People)
    ensures Resolve(People, 0, "Company.Bogus.Title") == [FieldShape(CompanyProp, 1), FieldShape(TitleProp, 2)]
  {
    PersonShape();
    var root := EntityShape(People, People[0].properties);
    SplitCompanyBogusTitle();
    StepCompanyAtRoot();
    StepBogusFromCompany();
    StepTitleFromCompany();
    var r0 := Resolution([], false);
    var r1 := Resolution([FieldShape(CompanyProp, 1)], true);
    var r2 := Resolution([FieldShape(CompanyProp, 1), FieldShape(TitleProp, 2)], true);
    assert Run(People, root, r0, ["Company", "Bogus", "Title"]) == Run(People, root, r1, ["Bogus", "Title"]);
    assert Run(People, root, r1, ["Bogus", "Title"]) == Run(People, root, r1, ["Title"]);
    assert Run(People, root, r1, ["Title"]) == Run(People, root, r2, []);
  }

  // ---- Two properties one might expect that the resolver does not have ----

  const EmployerProp := Property("Employer", 1)
  const CompanyOfPersonProp := Property("Company", 1)

  /** 0 Person { Employer: Company, Company: Company }, 1 Company. */
  const Staff: TypeTable := [
    TypeInfo("Person", None, [EmployerProp, CompanyOfPersonProp]),
    TypeInfo("Company", None, [])
  ]

  /** The path "Company" names the property Company, yet it resolves to Employer: the root
      type-name rule runs first and takes the first property whose type is named Company.
      So a path naming a root property need not resolve to that property. */
  lemma TypeNameBeatsPropertyName()
    ensures ValidTable(Staff)
    ensures Resolve(Staff, 0, "Company") == [FieldShape(EmployerProp, 1)]
    ensures Resolve(Staff, 0, "Company") != [FieldShape(CompanyOfPersonProp, 1)]
  {
    var root := EntityShape(Staff, Staff[0].properties);
    assert root == [FieldShape(EmployerProp, 1), FieldShape(CompanyOfPersonProp, 1)];
    SplitWithoutSeparator("Company", '.');
    ByTypeIsFirstMatch(Staff, root, "Company", 0);
    assert Run(Staff, root, Resolution([], false), ["Company"])
        == Run(Staff, root, Resolution([FieldShape(EmployerProp, 1)], true), []);
  }

  const HomeProp := Property("Home", 1)
  const WorkProp := Property("Work", 2)
  const AddressOfCompanyProp := Property("Address", 3)
  const ZipProp := Property("Zip", 4)

  /** 0 Person { Home: Address, Work: Company }, 1 Address, 2 Company { Address: Location },
      3 Location { Zip: String }, 4 String. */
  const Offices: TypeTable := [
    TypeInfo("Person", None, [HomeProp, WorkProp]),
    TypeInfo("Address", None, []),
    TypeInfo("Company", None, [AddressOfCompanyProp]),
    TypeInfo("Location", None, [ZipProp]),
    TypeInfo("String", None, [])
  ]

  lemma SplitWorkAddressZip()
    ensures Split("Work.Address.Zip", '.') == ["Work", "Address", "Zip"]
  {
    assert Join(["Zip"], '.') == "Zip";
    assert Join(["Address", "Zip"], '.') == "Address" + "." + "Zip";
    assert Join(["Work", "Address", "Zip"], '.') == "Work" + "." + "Address" + "." + "Zip";
    SplitPath(["Work", "Address", "Zip"], "Work.Address.Zip");
  }

  lemma StepWorkAtRoot()
    ensures ValidTable(Offices)
    ensures Step(Offices, EntityShape(Offices, Offices[0].properties), Resolution([], false), "Work")
         == Resolution([FieldShape(WorkProp, 2)], false)
  {
    var root := EntityShape(Offices, Offices[0].properties);
    assert root == [FieldShape(HomeProp, 1), FieldShape(WorkProp, 2)];
    assert !TypeNameMatches(Offices, root[0], "Work") && !TypeNameMatches(Offices, root[1], "Work");
    assert FoldCase("Home"[0]) != FoldCase("Work"[0]);
    assert !FieldNameMatches(root[0], "Work");
    ByInfoIsFirstMatch(root, "Work", 1);
  }

  lemma StepAddressAfterWork()
    ensures ValidTable(Offices)
    ensures Step(Offices, EntityShape(Offices, Offices[0].properties), Resolution([FieldShape(WorkProp, 2)], false), "Address")
         == Resolution([FieldShape(WorkProp, 2), FieldShape(HomeProp, 1)], true)
  {
    var root := EntityShape(Offices, Offices[0].properties);
    assert root == [FieldShape(HomeProp, 1), FieldShape(WorkProp, 2)];
    ByTypeIsFirstMatch(Offices, root, "Address", 0);
  }

  lemma StepZipAfterHome()
    ensures ValidTable(Offices)
    ensures Step(Offices, EntityShape(Offices, Offices[0].properties),
                 Resolution([FieldShape(WorkProp, 2), FieldShape(HomeProp, 1)], true), "Zip")
         == Resolution([FieldShape(WorkProp, 2), FieldShape(HomeProp, 1)], true)
  {
    assert LookupInChain(Offices, "Zip", 1) == None;
  }

  /** "Work.Address.Zip" names a real chain Work -> Address -> Zip, and the chained lookup
      from Company would find Address. But the root name rule took Work without setting the
      latch, so the root type-name rule takes the root property Home for "Address", and
      "Zip" is then skipped: the chain is [Work, Home], shorter than the path. */
  lemma RootTypeNameInterruptsChain()
    ensures ValidTable(Offices)
    ensures LookupInChain(Offices, "Address", 2) == Some(AddressOfCompanyProp)
    ensures LookupInChain(Offices, "Zip", 3) == Some(ZipProp)
    ensures Resolve(Offices, 0, "Work.Address.Zip") == [FieldShape(WorkProp, 2), FieldShape(HomeProp, 1)]
    ensures |Resolve(Offices, 0, "Work.Address.Zip")| < |Split("Work.Address.Zip", '.')|
  {
    FindPropertyIsFirstMatch(Offices[2].properties, "Address", 0);
    FindPropertyIsFirstMatch(Offices[3].properties, "Zip", 0);
    var root := EntityShape(Offices, Offices[0].properties);
    SplitWorkAddressZip();
    StepWorkAtRoot();
    StepAddressAfterWork();
    StepZipAfterHome();
    var r0 := Resolution([], false);
    var r1 := Resolution([FieldShape(WorkProp, 2)], false);
    var r2 := Resolution([FieldShape(WorkProp, 2), FieldShape(HomeProp, 1)], true);
    assert Run(Offices, root, r0, ["Work", "Address", "Zip"]) == Run(Offices, root, r1, ["Address", "Zip"]);
    assert Run(Offices, root, r1, ["Address", "Zip"]) == Run(Offices, root, r2, ["Zip"]);
    assert Run(Offices, root, r2, ["Zip"]) == Run(Offices, root, r2, []);
  }
}
