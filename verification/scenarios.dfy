/**
 * The data-transfer types of the auto-mapping tests as shapes, the instances the tests build
 * as values, and what the tests assert of converting and populating them.
 */
module Scenarios {
  import opened Outcomes
  import opened Text
  import opened Calendar
  import opened Guids
  import opened Enums
  import opened Values
  import opened Render
  import opened Keyed
  import opened Mapper
  import opened Identity
  import opened ObjectDictionaries
  import opened Properties

  // ---------------------------------------------------------------- declared types

  function Prop(name: string, shape: Shape): Member {
    Member(name, PropertyMember, shape, {})
  }

  function FieldOf(name: string, shape: Shape): Member {
    Member(name, FieldMember, shape, {})
  }

  const IntShape: Shape := ScalarInt(Int32)

  /** `Car { string Name; int Age }` */
  function CarMembers(): seq<Member> {
    [Prop("Name", ScalarStr), Prop("Age", IntShape)]
  }

  /** `SubCar : Car { string Custom }` */
  function SubCarOwn(): seq<Member> {
    [Prop("Custom", ScalarStr)]
  }

  /** `User { string FirstName; [DataMember] string LastName; Car Car }`; `SubUser : User` adds nothing. */
  function UserMembers(): seq<Member> {
    [Prop("FirstName", ScalarStr), Member("LastName", PropertyMember, ScalarStr, {"DataMember"}), Prop("Car", Composite(CarMembers()))]
  }

  /** `UserFields` declares the same members as public fields; `SubUserFields : UserFields` adds nothing. */
  function UserFieldsMembers(): seq<Member> {
    [FieldOf("FirstName", ScalarStr), FieldOf("LastName", ScalarStr), FieldOf("Car", Composite(CarMembers()))]
  }

  /** `UserDto { string FirstName; string LastName; string Car }` */
  function UserDtoMembers(): seq<Member> {
    [Prop("FirstName", ScalarStr), Prop("LastName", ScalarStr), Prop("Car", ScalarStr)]
  }

  function ColorDecl(): EnumDecl {
    EnumDecl("Color", ["Red", "Green", "Blue"])
  }

  function OtherColorDecl(): EnumDecl {
    EnumDecl("OtherColor", ["Red", "Green", "Blue"])
  }

  /** `EnumConversion { Color Color; Color? NullableColor }` */
  function EnumConversionMembers(): seq<Member> {
    [Prop("Color", Enum(ColorDecl())), Prop("NullableColor", Nullable(Enum(ColorDecl())))]
  }

  /** `EnumConversionString { string Color; string NullableColor }` */
  function EnumConversionStringMembers(): seq<Member> {
    [Prop("Color", ScalarStr), Prop("NullableColor", ScalarStr)]
  }

  /** `EnumConversionInt { int Color; int? NullableColor }` */
  function EnumConversionIntMembers(): seq<Member> {
    [Prop("Color", IntShape), Prop("NullableColor", Nullable(IntShape))]
  }

  /** A type with one member `Color` of the given shape: `NullableEnumConversion`, `ReallyNullableEnumConversion`, `EnumConversionDto`, `NullableEnumConversionDto`. */
  function ColorHolder(s: Shape): seq<Member> {
    [Prop("Color", s)]
  }

  /** `IntId { int Id }` and `IntNullableId { int? Id }` */
  function IdHolder(s: Shape): seq<Member> {
    [Prop("Id", s)]
  }

  // ---------------------------------------------------------------- instances

  function CarValue(name: string, age: int): Value {
    Obj([Field("Name", Str(name)), Field("Age", Int(age))])
  }

  function UserValue(first: string, last: string, car: Value): Value {
    Obj([Field("FirstName", Str(first)), Field("LastName", Str(last)), Field("Car", car)])
  }

  /** The user most tests start from. */
  function Demis(): Value {
    UserValue("Demis", "Bellot", CarValue("BMW X6", 3))
  }

  // ---------------------------------------------------------------- composite rendered into a string member

  /** A composite written as text: `{Name:value,...}` in member order, no whitespace. */
  lemma {:induction false} CarText()
    ensures Convert(CarValue("BMW X6", 3), ScalarStr) == Ok(Str("{Name:BMW X6,Age:3}"))
  {
    var car := CarValue("BMW X6", 3);
    CarPieces();
    assert Join(["Name:BMW X6", "Age:3"], ',') == "Name:BMW X6,Age:3";
    assert ToText(car) == "{" + Join(RenderFields(car.fields), ',') + "}";
    assert "{" + "Name:BMW X6,Age:3" + "}" == "{Name:BMW X6,Age:3}";
    ConvertToText(car);
  }

  lemma {:induction false} CarPieces()
    ensures RenderFields(CarValue("BMW X6", 3).fields) == ["Name:BMW X6", "Age:3"]
  {
    var fields := CarValue("BMW X6", 3).fields;
    AgePiece();
    assert Plain("BMW X6");
    assert RenderValue(Str("BMW X6")) == "BMW X6";
    assert "Name" + ":" + "BMW X6" == "Name:BMW X6";
    assert fields[1..] == [Field("Age", Int(3))];
    assert RenderFields(fields) == ["Name:BMW X6"] + RenderFields(fields[1..]);
  }

  lemma {:induction false} AgePiece()
    ensures RenderFields([Field("Age", Int(3))]) == ["Age:3"]
  {
    var g := [Field("Age", Int(3))];
    assert FormatInt(3) == "3";
    assert RenderValue(Int(3)) == "3";
    assert "Age" + ":" + "3" == "Age:3";
    assert g[1..] == [];
    assert RenderFields(g) == [g[0].name + ":" + RenderValue(g[0].val)] + RenderFields(g[1..]);
  }

  /** The user as a `UserDto`: names copied, the car written as text. */
  function DemisDto(): seq<Field> {
    [Field("FirstName", Str("Demis")), Field("LastName", Str("Bellot")), Field("Car", Str("{Name:BMW X6,Age:3}"))]
  }

  lemma {:induction false} UserDtoFromUser()
    ensures Aligned(Demis().fields, UserDtoMembers()) && CaseDistinct(UserDtoMembers())
    ensures forall i :: 0 <= i < 3 ==> Converted(UserDtoMembers()[i], Demis().fields[i]) == DemisDto()[i]
  {
    CarText();
  }

  /** `new UserDto().PopulateWith(user)` */
  lemma {:induction false} DoesPopulate()
    ensures Populate(UserDtoMembers(), NewFields(UserDtoMembers()), Demis(), NoFilter) == DemisDto()
  {
    DoesTranslate();
    ConvertIntoComposite(Demis(), UserDtoMembers());
  }

  /** `user.ConvertTo<UserDto>()` */
  lemma {:induction false} DoesTranslate()
    ensures Convert(Demis(), Composite(UserDtoMembers())) == Ok(Obj(DemisDto()))
  {
    UserDtoFromUser();
    ConvertAlignedTo(Demis().fields, UserDtoMembers(), DemisDto());
  }

  // ---------------------------------------------------------------- enums

  lemma {:induction false} ColorFacts()
    ensures DistinctNames(ColorDecl().names) && CaseDistinctNames(OtherColorDecl().names)
    ensures CaseDistinctNames(ColorDecl().names)
  {
  }

  function EnumConversionValue(color: Value, nullable: Value): Value {
    Obj([Field("Color", color), Field("NullableColor", nullable)])
  }

  /** A two-member conversion known member by member. */
  lemma {:induction false} TwoMembers(fields: seq<Field>, ms: seq<Member>, expected: seq<Field>)
    requires |fields| == |ms| == |expected| == 2
    requires fields[0].name == ms[0].name && fields[1].name == ms[1].name && !SameName(ms[0].name, ms[1].name)
    requires Converted(ms[0], fields[0]) == expected[0] && Converted(ms[1], fields[1]) == expected[1]
    ensures Convert(Obj(fields), Composite(ms)) == Ok(Obj(expected))
  {
    ConvertAlignedTo(fields, ms, expected);
  }

  lemma {:induction false} ColorNames()
    ensures !SameName("Color", "NullableColor")
    ensures ColorDecl().names[1] == "Green" && ColorDecl().names[2] == "Blue"
  {
    assert ToLower("Color") != ToLower("NullableColor") by {
      assert |ToLower("Color")| == 5;
    }
  }

  /** `new EnumConversion { Color = Color.Blue }.ConvertTo<EnumConversionString>()` */
  lemma {:induction false} EnumToName()
    ensures Convert(EnumConversionValue(EnumV(ColorDecl(), 2), Null), Composite(EnumConversionStringMembers())) ==
      Ok(EnumConversionValue(Str("Blue"), Null))
  {
    ColorFacts();
    ColorNames();
    EnumTextRoundTrip(ColorDecl(), 2);
    NullConversion(ScalarStr);
    TwoMembers(EnumConversionValue(EnumV(ColorDecl(), 2), Null).fields, EnumConversionStringMembers(),
      EnumConversionValue(Str("Blue"), Null).fields);
  }

  /** Green, plain and nullable, converts to the integer 1 and back. */
  lemma {:induction false} EnumToInt()
    ensures Convert(EnumConversionValue(EnumV(ColorDecl(), 1), EnumV(ColorDecl(), 1)), Composite(EnumConversionIntMembers())) ==
      Ok(EnumConversionValue(Int(1), Int(1)))
    ensures Convert(EnumConversionValue(Int(1), Int(1)), Composite(EnumConversionMembers())) ==
      Ok(EnumConversionValue(EnumV(ColorDecl(), 1), EnumV(ColorDecl(), 1)))
  {
    ColorNames();
    EnumIntRoundTrip(ColorDecl(), 1);
    TwoMembers(EnumConversionValue(EnumV(ColorDecl(), 1), EnumV(ColorDecl(), 1)).fields, EnumConversionIntMembers(),
      EnumConversionValue(Int(1), Int(1)).fields);
    TwoMembers(EnumConversionValue(Int(1), Int(1)).fields, EnumConversionMembers(),
      EnumConversionValue(EnumV(ColorDecl(), 1), EnumV(ColorDecl(), 1)).fields);
  }

  /** Green, plain and nullable, converts to the name "Green" and back. */
  lemma {:induction false} EnumToText()
    ensures Convert(EnumConversionValue(EnumV(ColorDecl(), 1), EnumV(ColorDecl(), 1)), Composite(EnumConversionStringMembers())) ==
      Ok(EnumConversionValue(Str("Green"), Str("Green")))
    ensures Convert(EnumConversionValue(Str("Green"), Str("Green")), Composite(EnumConversionMembers())) ==
      Ok(EnumConversionValue(EnumV(ColorDecl(), 1), EnumV(ColorDecl(), 1)))
  {
    ColorFacts();
    ColorNames();
    EnumTextRoundTrip(ColorDecl(), 1);
    TwoMembers(EnumConversionValue(EnumV(ColorDecl(), 1), EnumV(ColorDecl(), 1)).fields, EnumConversionStringMembers(),
      EnumConversionValue(Str("Green"), Str("Green")).fields);
    TwoMembers(EnumConversionValue(Str("Green"), Str("Green")).fields, EnumConversionMembers(),
      EnumConversionValue(EnumV(ColorDecl(), 1), EnumV(ColorDecl(), 1)).fields);
  }

  /**
   * `Color.Green`, held in a `Color` or a `Color?` member alike, converts into an `OtherColor` or an
   * `OtherColor?` member as `OtherColor.Green`.
   */
  lemma {:induction false} EnumAcrossTypes()
    ensures Convert(Obj([Field("Color", EnumV(ColorDecl(), 1))]), Composite(ColorHolder(Enum(OtherColorDecl())))) ==
      Ok(Obj([Field("Color", EnumV(OtherColorDecl(), 1))]))
    ensures Convert(Obj([Field("Color", EnumV(ColorDecl(), 1))]), Composite(ColorHolder(Nullable(Enum(OtherColorDecl()))))) ==
      Ok(Obj([Field("Color", EnumV(OtherColorDecl(), 1))]))
  {
    ColorFacts();
    EnumAcrossByName(ColorDecl(), 1, OtherColorDecl(), 1);
    var green := [Field("Color", EnumV(ColorDecl(), 1))];
    ConvertAlignedTo(green, ColorHolder(Enum(OtherColorDecl())), [Field("Color", EnumV(OtherColorDecl(), 1))]);
    ConvertAlignedTo(green, ColorHolder(Nullable(Enum(OtherColorDecl()))), [Field("Color", EnumV(OtherColorDecl(), 1))]);
  }

  /** A null `Color?` converts into an `OtherColor` member as its default, the first declared name. */
  lemma {:induction false} NullEnumAcrossTypes()
    ensures Convert(Obj([Field("Color", Null)]), Composite(ColorHolder(Enum(OtherColorDecl())))) ==
      Ok(Obj([Field("Color", EnumV(OtherColorDecl(), 0))]))
  {
    NullConversion(Enum(OtherColorDecl()));
    ConvertAlignedTo([Field("Color", Null)], ColorHolder(Enum(OtherColorDecl())), [Field("Color", EnumV(OtherColorDecl(), 0))]);
  }

  // ---------------------------------------------------------------- nullable int

  /** `new IntNullableId().ConvertTo<IntId>()` has `Id == 0`; with `Id = 10` it converts back to `IntNullableId` with `Id == 10`. */
  lemma {:induction false} NullableIntToAndFrom()
    ensures Convert(Obj([Field("Id", Null)]), Composite(IdHolder(IntShape))) == Ok(Obj([Field("Id", Int(0))]))
    ensures Convert(Obj([Field("Id", Int(10))]), Composite(IdHolder(Nullable(IntShape)))) == Ok(Obj([Field("Id", Int(10))]))
  {
    NullConversion(IntShape);
    assert Converted(IdHolder(IntShape)[0], Field("Id", Null)) == Field("Id", Int(0));
    ConvertAlignedTo([Field("Id", Null)], IdHolder(IntShape), [Field("Id", Int(0))]);
    assert Converted(IdHolder(Nullable(IntShape))[0], Field("Id", Int(10))) == Field("Id", Int(10));
    ConvertAlignedTo([Field("Id", Int(10))], IdHolder(Nullable(IntShape)), [Field("Id", Int(10))]);
  }

  // ---------------------------------------------------------------- properties, fields and inheritance

  /** A car whose age is in range is an instance of the declared `Car`. */
  lemma {:induction false} CarConforms(name: string, age: int)
    requires InRange(age, Int32)
    ensures WellFormed(Composite(CarMembers())) && Conforms(CarValue(name, age), Composite(CarMembers()))
  {
    assert FieldsConform(CarValue(name, age).fields, CarMembers());
  }

  lemma {:induction false} UserWellFormed()
    ensures WellFormed(Composite(UserMembers())) && WellFormed(Composite(UserFieldsMembers()))
  {
    CarWellFormed();
    UserNames();
  }

  lemma {:induction false} CarWellFormed()
    ensures WellFormed(Composite(CarMembers()))
  {
  }

  lemma {:induction false} UserNames()
    ensures CaseDistinct(UserMembers()) && CaseDistinct(UserFieldsMembers())
  {
  }

  /** A user whose car, if any, is an instance of `Car` conforms to both `User` and `UserFields`. */
  lemma {:induction false} UserConforms(first: Value, last: Value, car: Value)
    requires first.Null? || first.Str?
    requires last.Null? || last.Str?
    requires Conforms(car, Composite(CarMembers()))
    ensures Conforms(Obj([Field("FirstName", first), Field("LastName", last), Field("Car", car)]), Composite(UserMembers()))
    ensures Conforms(Obj([Field("FirstName", first), Field("LastName", last), Field("Car", car)]), Composite(UserFieldsMembers()))
  {
    var fields := [Field("FirstName", first), Field("LastName", last), Field("Car", car)];
    assert FieldsConform(fields, UserMembers());
    assert FieldsConform(fields, UserFieldsMembers());
  }

  /**
   * Properties and fields pair by name alone: a user converts into `UserFields` unchanged, and a
   * `UserFields` instance into `User`. `SubUser` and `SubUserFields` add no members, so the
   * inherited cases are the same conversions.
   */
  lemma {:induction false} PropertiesAndFields()
    ensures Convert(Demis(), Composite(UserFieldsMembers())) == Ok(Demis())
    ensures Convert(Demis(), Composite(UserMembers())) == Ok(Demis())
  {
    UserWellFormed();
    CarConforms("BMW X6", 3);
    UserConforms(Str("Demis"), Str("Bellot"), CarValue("BMW X6", 3));
    ConvertIdentity(Demis(), Composite(UserFieldsMembers()));
    ConvertIdentity(Demis(), Composite(UserMembers()));
  }

  // ---------------------------------------------------------------- attribute filters

  /** `new User().PopulateFromPropertiesWithAttribute(user, typeof(DataMemberAttribute))` copies only `LastName`. */
  lemma {:induction false} OnlyDataMember()
    ensures Populate(UserMembers(), NewFields(UserMembers()), Demis(), Require("DataMember")) ==
      [Field("FirstName", Null), Field("LastName", Str("Bellot")), Field("Car", Null)]
  {
    var ms := UserMembers();
    var expected := [Field("FirstName", Null), Field("LastName", Str("Bellot")), Field("Car", Null)];
    DataMemberSlots();
    PopulateAlignedTo(ms, NewFields(ms), Demis().fields, Require("DataMember"), expected);
  }

  lemma {:induction false} DataMemberSlots()
    ensures CaseDistinct(UserMembers()) && Aligned(Demis().fields, UserMembers())
    ensures forall i :: 0 <= i < 3 ==>
      Assign(UserMembers()[i], NewFields(UserMembers())[i], Demis().fields[i], Require("DataMember")) ==
      [Field("FirstName", Null), Field("LastName", Str("Bellot")), Field("Car", Null)][i]
  {
    ConvertToText(Str("Bellot"));
  }

  /** `ModelWithIgnoredFields { int Id; string Name; [ReadOnly] int Ignored }` */
  function IgnoredFieldsMembers(): seq<Member> {
    [Prop("Id", IntShape), Prop("Name", ScalarStr), Member("Ignored", PropertyMember, IntShape, {"ReadOnly"})]
  }

  /** `new ModelWithIgnoredFields { Ignored = 10 }.PopulateFromPropertiesWithoutAttribute(model, typeof(ReadOnlyAttribute))` */
  lemma {:induction false} WithoutReadOnly()
    ensures Populate(IgnoredFieldsMembers(), [Field("Id", Int(0)), Field("Name", Null), Field("Ignored", Int(10))],
      Obj([Field("Id", Int(1)), Field("Name", Str("Foo")), Field("Ignored", Int(2))]), Exclude("ReadOnly")) ==
      [Field("Id", Int(1)), Field("Name", Str("Foo")), Field("Ignored", Int(10))]
  {
    ReadOnlySlots();
    PopulateAlignedTo(IgnoredFieldsMembers(), [Field("Id", Int(0)), Field("Name", Null), Field("Ignored", Int(10))],
      [Field("Id", Int(1)), Field("Name", Str("Foo")), Field("Ignored", Int(2))], Exclude("ReadOnly"),
      [Field("Id", Int(1)), Field("Name", Str("Foo")), Field("Ignored", Int(10))]);
  }

  lemma {:induction false} ReadOnlySlots()
    ensures CaseDistinct(IgnoredFieldsMembers())
    ensures Aligned([Field("Id", Int(1)), Field("Name", Str("Foo")), Field("Ignored", Int(2))], IgnoredFieldsMembers())
    ensures forall i :: 0 <= i < 3 ==>
      Assign(IgnoredFieldsMembers()[i], [Field("Id", Int(0)), Field("Name", Null), Field("Ignored", Int(10))][i],
        [Field("Id", Int(1)), Field("Name", Str("Foo")), Field("Ignored", Int(2))][i], Exclude("ReadOnly")) ==
      [Field("Id", Int(1)), Field("Name", Str("Foo")), Field("Ignored", Int(10))][i]
  {
    ConvertToText(Str("Foo"));
    assert Convert(Int(1), IntShape) == Ok(Int(1));
    assert ToLower("Id")[0] != ToLower("Ignored")[1];
  }

  /** `ViewModel { string Public; [IgnoreOnSelect] string Private }` */
  function ViewModelMembers(): seq<Member> {
    [Prop("Public", ScalarStr), Member("Private", PropertyMember, ScalarStr, {"IgnoreOnSelect"})]
  }

  function ViewModelValue(): seq<Field> {
    [Field("Public", Str("Public")), Field("Private", Str("Private"))]
  }

  lemma {:induction false} ViewModelNames()
    ensures !SameName("Public", "Private") && CaseDistinct(ViewModelMembers())
    ensures WellFormed(Composite(ViewModelMembers())) && FieldsConform(ViewModelValue(), ViewModelMembers())
  {
    assert ToLower("Public")[1] != ToLower("Private")[1];
  }

  /** `new ViewModel().PopulateFromPropertiesWithoutAttribute(vm, typeof(IgnoreOnSelectAttribute))` */
  lemma {:induction false} WithoutIgnoreOnSelect()
    ensures Populate(ViewModelMembers(), NewFields(ViewModelMembers()), Obj(ViewModelValue()), Exclude("IgnoreOnSelect")) ==
      [Field("Public", Str("Public")), Field("Private", Null)]
  {
    ViewModelNames();
    ConvertToText(Str("Public"));
    PopulateAlignedTo(ViewModelMembers(), NewFields(ViewModelMembers()), ViewModelValue(), Exclude("IgnoreOnSelect"),
      [Field("Public", Str("Public")), Field("Private", Null)]);
  }

  /** `ToObjectDictionary`, `Remove("Private")`, `FromObjectDictionary<ViewModel>()`: `Public` kept, `Private` null. */
  lemma {:induction false} RemoveIgnoredKey()
    ensures ToObjectDictionary(Obj(ViewModelValue())) == Ok(Map([Entry(Str("Public"), Str("Public")), Entry(Str("Private"), Str("Private"))]))
    ensures FromObjectDictionary(RemoveKeys(ToObjectDictionary(Obj(ViewModelValue())).value.entries, {"Private"}), ViewModelMembers()) ==
      [Field("Public", Str("Public")), Field("Private", Null)]
  {
    var ms := ViewModelMembers();
    ViewModelNames();
    ObjectDictionaryView(ViewModelValue(), ms);
    assert ObjectEntries(ViewModelValue()) == [Entry(Str("Public"), Str("Public")), Entry(Str("Private"), Str("Private"))];
    FromObjectDictionaryRemoving(ViewModelValue(), ms, {"Private"});
    assert Restored(ViewModelValue(), ms, {"Private"}) == [Field("Public", Str("Public")), Field("Private", Null)];
  }

  // ---------------------------------------------------------------- null retention

  /** `Customer { CompanyInfo CompanyInfo }` and `CustomerDto { CompanyInfoDto CompanyInfo }`, the info types having `int Id; string ITN`. */
  function CustomerMembers(): seq<Member> {
    [Prop("CompanyInfo", Composite([Prop("Id", IntShape), Prop("ITN", ScalarStr)]))]
  }

  /** `new User { FirstName = "Foo" }.ConvertTo<UserFields>()` keeps the members never set null. */
  lemma {:induction false} RetainsNullMembers()
    ensures Convert(Obj([Field("FirstName", Str("Foo")), Field("LastName", Null), Field("Car", Null)]), Composite(UserFieldsMembers())) ==
      Ok(Obj([Field("FirstName", Str("Foo")), Field("LastName", Null), Field("Car", Null)]))
  {
    UserWellFormed();
    UserConforms(Str("Foo"), Null, Null);
    ConvertIdentity(Obj([Field("FirstName", Str("Foo")), Field("LastName", Null), Field("Car", Null)]), Composite(UserFieldsMembers()));
  }

  /** `new Customer { CompanyInfo = null }.ConvertTo<CustomerDto>()` has a null `CompanyInfo`. */
  lemma {:induction false} RetainsNullComposite()
    ensures Convert(Obj([Field("CompanyInfo", Null)]), Composite(CustomerMembers())) == Ok(Obj([Field("CompanyInfo", Null)]))
  {
    var info := Composite([Prop("Id", IntShape), Prop("ITN", ScalarStr)]);
    NullConversion(info);
    assert Converted(CustomerMembers()[0], Field("CompanyInfo", Null)) == Field("CompanyInfo", Null);
    ConvertAlignedTo([Field("CompanyInfo", Null)], CustomerMembers(), [Field("CompanyInfo", Null)]);
  }

  // ---------------------------------------------------------------- collections

  function UserShape(): Shape {
    Composite(UserMembers())
  }

  /** The two users of the collection test. */
  function TwoUsers(): seq<Value> {
    [UserValue("First1", "Last1", CarValue("Car1", 1)), UserValue("First2", "Last2", CarValue("Car2", 2))]
  }

  /** `ModelWithEnumerable`, `ModelWithList`, `ModelWithArray`, `ModelWithHashSet`: one `Collection` member of users. */
  function CollectionModelMembers(k: CollectionKind): seq<Member> {
    [Prop("Collection", Collection(k, UserShape()))]
  }

  /** A user with names and a car whose age is in range is an instance of `User`. */
  lemma {:induction false} UserInstance(first: string, last: string, name: string, age: int)
    requires InRange(age, Int32)
    ensures Conforms(UserValue(first, last, CarValue(name, age)), UserShape())
  {
    CarConforms(name, age);
    UserConforms(Str(first), Str(last), CarValue(name, age));
  }

  lemma {:induction false} TwoUsersConform(k: CollectionKind)
    ensures WellFormed(UserShape()) && Conforms(Seq(TwoUsers()), Collection(k, UserShape()))
  {
    UserWellFormed();
    UserInstance("First1", "Last1", "Car1", 1);
    UserInstance("First2", "Last2", "Car2", 2);
    var users := TwoUsers();
    assert Conforms(users[0], UserShape()) && Conforms(users[1], UserShape());
  }

  /**
   * The users, held in a model of any collection kind or on their own, convert into a model of
   * any collection kind, or into any collection of users, unchanged and in order.
   */
  lemma {:induction false} ModelsWithCollections(k1: CollectionKind, k2: CollectionKind)
    ensures Convert(Obj([Field("Collection", Seq(TwoUsers()))]), Composite(CollectionModelMembers(k2))) ==
      Ok(Obj([Field("Collection", Seq(TwoUsers()))]))
    ensures Convert(Seq(TwoUsers()), Collection(k2, UserShape())) == Ok(Seq(TwoUsers()))
  {
    TwoUsersConform(k1);
    CollectionKindChange(TwoUsers(), k1, k2, UserShape());
    CollectionModelConforms(k2);
    ConvertIdentity(Obj([Field("Collection", Seq(TwoUsers()))]), Composite(CollectionModelMembers(k2)));
  }

  lemma {:induction false} CollectionModelConforms(k: CollectionKind)
    ensures WellFormed(Composite(CollectionModelMembers(k)))
    ensures Conforms(Obj([Field("Collection", Seq(TwoUsers()))]), Composite(CollectionModelMembers(k)))
  {
    TwoUsersConform(k);
    assert FieldsConform([Field("Collection", Seq(TwoUsers()))], CollectionModelMembers(k));
  }

  // ---------------------------------------------------------------- lists of objects and of subtypes

  function Cars(): seq<Value> {
    [CarValue("Name0", 0), CarValue("Name1", 1), CarValue("Name2", 2)]
  }

  /** A `SubCar` with `Custom` unset: the base members first, then its own. */
  function SubCarValue(name: string, age: int): Value {
    Obj([Field("Name", Str(name)), Field("Age", Int(age)), Field("Custom", Null)])
  }

  /** A `List<object>` of cars translates into a `List<Car>` of the same cars. */
  lemma {:induction false} ListOfObjects()
    ensures Convert(Seq(Cars()), Collection(List, Composite(CarMembers()))) == Ok(Seq(Cars()))
  {
    CarConforms("Name0", 0);
    CarConforms("Name1", 1);
    CarConforms("Name2", 2);
    assert forall i :: 0 <= i < 3 ==> Conforms(Cars()[i], Composite(CarMembers()));
    ConvertIdentity(Seq(Cars()), Collection(List, Composite(CarMembers())));
  }

  /** A `SubCar` converts into a `Car` by dropping its own members. */
  lemma {:induction false} SubCarToCar(name: string, age: int)
    requires InRange(age, Int32)
    ensures Convert(SubCarValue(name, age), Composite(CarMembers())) == Ok(CarValue(name, age))
  {
    var fields := SubCarValue(name, age).fields;
    SubCarWellFormed();
    assert FieldsConform(fields, CarMembers() + SubCarOwn());
    Upcast(CarMembers(), SubCarOwn(), fields);
    assert fields[..2] == CarValue(name, age).fields;
  }

  lemma {:induction false} SubCarWellFormed()
    ensures WellFormed(Composite(CarMembers() + SubCarOwn()))
  {
    assert !SameName("Name", "Custom") && !SameName("Age", "Custom") by {
      assert |ToLower("Age")| != |ToLower("Custom")|;
      assert ToLower("Name")[0] != ToLower("Custom")[0];
    }
  }

  /** A `List<SubCar>` translates into a `List<Car>` of the base parts, in order. */
  lemma {:induction false} ListOfSubtypes()
    ensures Convert(Seq([SubCarValue("Name0", 0), SubCarValue("Name1", 1), SubCarValue("Name2", 2)]), Collection(List, Composite(CarMembers()))) ==
      Ok(Seq(Cars()))
  {
    var items := [SubCarValue("Name0", 0), SubCarValue("Name1", 1), SubCarValue("Name2", 2)];
    SubCarToCar("Name0", 0);
    SubCarToCar("Name1", 1);
    SubCarToCar("Name2", 2);
    ListElementwise(items, Cars(), List, Composite(CarMembers()));
  }

  /** A list whose every element converts into the element type converts into a list of the converted elements. */
  lemma {:induction false} ListElementwise(items: seq<Value>, converted: seq<Value>, k: CollectionKind, e: Shape)
    requires |items| == |converted|
    requires forall i :: 0 <= i < |items| ==> Convert(items[i], e) == Ok(converted[i])
    ensures Convert(Seq(items), Collection(k, e)) == Ok(Seq(converted))
  {
    CollectionOrder(items, k, e);
    assert Convert(Seq(items), Collection(k, e)).value.items == converted;
  }

  // ---------------------------------------------------------------- value types

  /** `"1"` reads as the integer 1 into an `int` or a `long`, and 1 writes as `"1"`. */
  lemma {:induction false} IntValueTypes()
    ensures Convert(Str("1"), ScalarInt(Int32)) == Ok(Int(1))
    ensures Convert(Str("1"), ScalarInt(Int64)) == Ok(Int(1))
    ensures Convert(Int(1), ScalarStr) == Ok(Str("1"))
  {
    assert FormatInt(1) == "1";
    IntTextRoundTrip("1", Int32);
    IntTextRoundTrip("1", Int64);
  }

  /** The integer members of `BclTypes { int Int; long Long }` and of `BclTypeStrings { string Int; string Long }`. */
  function BclIntMembers(): seq<Member> {
    [Prop("Int", IntShape), Prop("Long", ScalarInt(Int64))]
  }

  function BclStringMembers(): seq<Member> {
    [Prop("Int", ScalarStr), Prop("Long", ScalarStr)]
  }

  lemma {:induction false} BclNames()
    ensures !SameName("Int", "Long")
  {
    assert ToLower("Int")[0] == 'i' && ToLower("Long")[0] == 'l';
  }

  /**
   * Between `int` and `long` an integer converts to itself; `BclTypes { Int = 1, Long = 2 }`
   * converts into `BclTypeStrings` as `{ Int = "1", Long = "2" }` and back.
   */
  lemma {:induction false} BclIntegers()
    ensures Convert(Str("from"), ScalarStr) == Ok(Str("from"))
    ensures Convert(Int(1), ScalarInt(Int64)) == Ok(Int(1))
    ensures Convert(Int(2), IntShape) == Ok(Int(2))
    ensures Convert(Obj([Field("Int", Int(1)), Field("Long", Int(2))]), Composite(BclStringMembers()))
      == Ok(Obj([Field("Int", Str("1")), Field("Long", Str("2"))]))
    ensures Convert(Obj([Field("Int", Str("1")), Field("Long", Str("2"))]), Composite(BclIntMembers()))
      == Ok(Obj([Field("Int", Int(1)), Field("Long", Int(2))]))
  {
    BclNames();
    assert FormatInt(1) == "1" && FormatInt(2) == "2";
    ConvertIdentity(Int(1), ScalarInt(Int64));
    ConvertIdentity(Int(2), IntShape);
    ConvertToText(Int(1));
    ConvertToText(Int(2));
    assert Converted(BclStringMembers()[0], Field("Int", Int(1))) == Field("Int", Str("1"));
    assert Converted(BclStringMembers()[1], Field("Long", Int(2))) == Field("Long", Str("2"));
    TwoMembers([Field("Int", Int(1)), Field("Long", Int(2))], BclStringMembers(),
      [Field("Int", Str("1")), Field("Long", Str("2"))]);
    IntTextRoundTrip("1", Int32);
    IntTextRoundTrip("2", Int64);
    assert Converted(BclIntMembers()[0], Field("Int", Str("1"))) == Field("Int", Int(1));
    assert Converted(BclIntMembers()[1], Field("Long", Str("2"))) == Field("Long", Int(2));
    TwoMembers([Field("Int", Str("1")), Field("Long", Str("2"))], BclIntMembers(),
      [Field("Int", Int(1)), Field("Long", Int(2))]);
  }

  /** `"2001-01-01"` reads as that date, and the date writes back as `"2001-01-01"`. */
  lemma {:induction false} DateValueType()
    ensures Convert(Str("2001-01-01"), ScalarDate) == Ok(Date(Day(2001, 1, 1)))
    ensures Convert(Date(Day(2001, 1, 1)), ScalarStr) == Ok(Str("2001-01-01"))
  {
    DateText();
    DateTextRoundTrip(Day(2001, 1, 1));
  }

  lemma {:induction false} DateText()
    ensures FormatDate(Day(2001, 1, 1)) == "2001-01-01"
  {
    assert FormatNat(2) == "2";
    assert FormatNat(20) == "20";
    assert FormatNat(200) == "200";
    assert FormatNat(2001) == "2001";
    assert FormatNat(1) == "1";
    assert Zeros(1) == "0";
    assert PadLeft("1", 2) == "01";
    assert PadLeft("2001", 4) == "2001";
  }

  // ---------------------------------------------------------------- text into collections

  /** `"a,b,c".ConvertTo<string[]>()` */
  lemma {:induction false} TextToStrings()
    ensures Convert(Str("a,b,c"), Collection(Array, ScalarStr)) == Ok(Seq([Str("a"), Str("b"), Str("c")]))
  {
    var pieces := ["a", "b", "c"];
    TextPieces(pieces, "a,b,c");
    TextIntoCollection("a,b,c", Array, ScalarStr);
    ConvertFromText("a,b,c", Collection(Array, ScalarStr));
    StrPieces();
  }

  lemma {:induction false} StrPieces()
    ensures ConvertPieces(["a", "b", "c"], ScalarStr) == [Str("a"), Str("b"), Str("c")]
  {
    var r := ConvertPieces(["a", "b", "c"], ScalarStr);
    assert Unescape("a") == "a" && Unescape("b") == "b" && Unescape("c") == "c";
    assert r[0] == Str("a") && r[1] == Str("b") && r[2] == Str("c");
  }

  /** `"1,2,3".ConvertTo<int[]>()` */
  lemma {:induction false} TextToInts()
    ensures Convert(Str("1,2,3"), Collection(Array, ScalarInt(Int32))) == Ok(Seq([Int(1), Int(2), Int(3)]))
  {
    var pieces := ["1", "2", "3"];
    TextPieces(pieces, "1,2,3");
    TextIntoCollection("1,2,3", Array, ScalarInt(Int32));
    ConvertFromText("1,2,3", Collection(Array, ScalarInt(Int32)));
    IntPieces();
  }

  lemma {:induction false} IntPieces()
    ensures ConvertPieces(["1", "2", "3"], ScalarInt(Int32)) == [Int(1), Int(2), Int(3)]
  {
    var r := ConvertPieces(["1", "2", "3"], ScalarInt(Int32));
    NumeralPiece(1);
    NumeralPiece(2);
    NumeralPiece(3);
    assert FormatInt(1) == "1" && FormatInt(2) == "2" && FormatInt(3) == "3";
    assert r[0] == Int(1) && r[1] == Int(2) && r[2] == Int(3);
  }

  /** An integer's numeral, as a list item, reads back as the integer. */
  lemma {:induction false} NumeralPiece(i: int)
    requires InRange(i, Int32)
    ensures Unescape(FormatInt(i)) == FormatInt(i)
    ensures ConvertText(FormatInt(i), ScalarInt(Int32)) == Ok(Int(i))
  {
    NumeralPlain(FormatInt(i));
  }

  /** Three one-character pieces without structural characters, joined by commas, split back into those pieces. */
  lemma {:induction false} TextPieces(pieces: seq<string>, s: string)
    requires |pieces| == 3 && forall i :: 0 <= i < 3 ==> |pieces[i]| == 1 && Plain(pieces[i])
    requires s == pieces[0] + "," + pieces[1] + "," + pieces[2]
    ensures ListPieces(s) == pieces
  {
    assert pieces[1..][1..] == [pieces[2]];
    assert Join(pieces[1..], ',') == pieces[1] + [','] + pieces[2];
    assert Join(pieces, ',') == s;
    assert s[0] == pieces[0][0];
    assert !IsDelimiter(pieces[0][0]);
    assert ListBody(s) == s;
    forall i | 0 <= i < 3
      ensures WholeItem(pieces[i])
    {
      PlainItem(false, pieces[i]);
    }
    SplitItemsJoin(pieces);
  }

  // ---------------------------------------------------------------- dictionaries

  /**
   * The dictionary-values test: `{a: 1}` and `{a: "1"}`, whatever dictionary or pair list holds
   * them, convert into a dictionary, a pair list or an object dictionary with `object`, `string`
   * or `int` values as `{a: 1}`, `{a: "1"}` and `{a: 1}` respectively (a `string` value is
   * taken as is into `object`).
   */
  lemma {:induction false} DictionaryValues(kind: MappingKind)
    ensures Convert(Map([Entry(Str("a"), Int(1))]), Mapping(kind, ScalarStr, Any)) == Ok(Map([Entry(Str("a"), Int(1))]))
    ensures Convert(Map([Entry(Str("a"), Int(1))]), Mapping(kind, ScalarStr, ScalarStr)) == Ok(Map([Entry(Str("a"), Str("1"))]))
    ensures Convert(Map([Entry(Str("a"), Int(1))]), Mapping(kind, ScalarStr, IntShape)) == Ok(Map([Entry(Str("a"), Int(1))]))
    ensures Convert(Map([Entry(Str("a"), Str("1"))]), Mapping(kind, ScalarStr, Any)) == Ok(Map([Entry(Str("a"), Str("1"))]))
    ensures Convert(Map([Entry(Str("a"), Str("1"))]), Mapping(kind, ScalarStr, ScalarStr)) == Ok(Map([Entry(Str("a"), Str("1"))]))
    ensures Convert(Map([Entry(Str("a"), Str("1"))]), Mapping(kind, ScalarStr, IntShape)) == Ok(Map([Entry(Str("a"), Int(1))]))
  {
    IntValueTypes();
    ConvertToText(Str("a"));
    ConvertToText(Str("1"));
    SingleEntryConvert(Entry(Str("a"), Int(1)), kind, ScalarStr, Any);
    SingleEntryConvert(Entry(Str("a"), Int(1)), kind, ScalarStr, ScalarStr);
    SingleEntryConvert(Entry(Str("a"), Int(1)), kind, ScalarStr, IntShape);
    SingleEntryConvert(Entry(Str("a"), Str("1")), kind, ScalarStr, Any);
    SingleEntryConvert(Entry(Str("a"), Str("1")), kind, ScalarStr, ScalarStr);
    SingleEntryConvert(Entry(Str("a"), Str("1")), kind, ScalarStr, IntShape);
  }

  /** The dictionary-keys test: `{1: "a"}` and `{"1": "a"}` into `object`, `string` and `int` keys. */
  lemma {:induction false} DictionaryKeys(kind: MappingKind)
    ensures Convert(Map([Entry(Int(1), Str("a"))]), Mapping(kind, Any, ScalarStr)) == Ok(Map([Entry(Int(1), Str("a"))]))
    ensures Convert(Map([Entry(Int(1), Str("a"))]), Mapping(kind, ScalarStr, ScalarStr)) == Ok(Map([Entry(Str("1"), Str("a"))]))
    ensures Convert(Map([Entry(Int(1), Str("a"))]), Mapping(kind, IntShape, ScalarStr)) == Ok(Map([Entry(Int(1), Str("a"))]))
    ensures Convert(Map([Entry(Str("1"), Str("a"))]), Mapping(kind, Any, ScalarStr)) == Ok(Map([Entry(Str("1"), Str("a"))]))
    ensures Convert(Map([Entry(Str("1"), Str("a"))]), Mapping(kind, ScalarStr, ScalarStr)) == Ok(Map([Entry(Str("1"), Str("a"))]))
    ensures Convert(Map([Entry(Str("1"), Str("a"))]), Mapping(kind, IntShape, ScalarStr)) == Ok(Map([Entry(Int(1), Str("a"))]))
  {
    IntValueTypes();
    ConvertToText(Str("a"));
    ConvertToText(Str("1"));
    SingleEntryConvert(Entry(Int(1), Str("a")), kind, Any, ScalarStr);
    SingleEntryConvert(Entry(Int(1), Str("a")), kind, ScalarStr, ScalarStr);
    SingleEntryConvert(Entry(Int(1), Str("a")), kind, IntShape, ScalarStr);
    SingleEntryConvert(Entry(Str("1"), Str("a")), kind, Any, ScalarStr);
    SingleEntryConvert(Entry(Str("1"), Str("a")), kind, ScalarStr, ScalarStr);
    SingleEntryConvert(Entry(Str("1"), Str("a")), kind, IntShape, ScalarStr);
  }

  /** `HasObject { object Value }` populated from `{value: {a: 1}}`: the key matches ignoring case and the nested dictionary is taken as is. */
  lemma {:induction false} DictionaryToHasObject()
    ensures FromObjectDictionary([Entry(Str("value"), Map([Entry(Str("a"), Int(1))]))], [Prop("Value", Any)]) ==
      [Field("Value", Map([Entry(Str("a"), Int(1))]))]
  {
    var entries := [Entry(Str("value"), Map([Entry(Str("a"), Int(1))]))];
    var ms := [Prop("Value", Any)];
    assert ToLower("value") == ToLower("Value");
    assert KeyNames(entries[0], "Value");
    LookupEntryUnique(entries, "Value", entries[0]);
    PopulateFrame(ms, NewFields(ms), Map(entries), NoFilter, 0);
  }

  /** `DictionaryTest { string A; int B; bool C }` (its `double D` is not modelled). */
  function DictionaryTestMembers(): seq<Member> {
    [Prop("A", ScalarStr), Prop("B", IntShape), Prop("C", ScalarBool)]
  }

  function DictionaryTestEntries(): seq<Entry> {
    [Entry(Str("A"), Str("a")), Entry(Str("B"), Int(1)), Entry(Str("C"), Bool(true))]
  }

  lemma {:induction false} DictionaryTestShape()
    ensures WellFormed(Composite(DictionaryTestMembers()))
    ensures FieldsConform([Field("A", Str("a")), Field("B", Int(1)), Field("C", Bool(true))], DictionaryTestMembers())
  {
    DictionaryTestNames();
    var fields := [Field("A", Str("a")), Field("B", Int(1)), Field("C", Bool(true))];
    var ms := DictionaryTestMembers();
    assert forall i :: 0 <= i < 3 ==> fields[i].name == ms[i].name && Conforms(fields[i].val, ms[i].shape);
  }

  lemma {:induction false} DictionaryTestNames()
    ensures CaseDistinct(DictionaryTestMembers())
  {
    assert ToLower("A")[0] == 'a' && ToLower("B")[0] == 'b' && ToLower("C")[0] == 'c';
  }

  /** `new DictionaryTest { A = "a", B = 1, C = true }.ToObjectDictionary()` lists each member under its name. */
  lemma {:induction false} InstanceToObjectDictionary()
    ensures ToObjectDictionary(Obj([Field("A", Str("a")), Field("B", Int(1)), Field("C", Bool(true))])) == Ok(Map(DictionaryTestEntries()))
  {
    var fields := [Field("A", Str("a")), Field("B", Int(1)), Field("C", Bool(true))];
    DictionaryTestShape();
    ObjectDictionaryView(fields, DictionaryTestMembers());
    TestEntries();
  }

  lemma {:induction false} TestEntries()
    ensures ObjectEntries([Field("A", Str("a")), Field("B", Int(1)), Field("C", Bool(true))]) == DictionaryTestEntries()
  {
    var r := ObjectEntries([Field("A", Str("a")), Field("B", Int(1)), Field("C", Bool(true))]);
    assert r[0] == Entry(Str("A"), Str("a")) && r[1] == Entry(Str("B"), Int(1)) && r[2] == Entry(Str("C"), Bool(true));
  }

  /** The expected `Dictionary<string, object>` converts to an object dictionary unchanged. */
  lemma {:induction false} DictionaryToObjectDictionary()
    ensures ToObjectDictionary(Map(DictionaryTestEntries())) == Ok(Map(DictionaryTestEntries()))
  {
    TestEntriesConform();
    ConvertIdentity(Map(DictionaryTestEntries()), ObjectDictionaryShape);
    assert ToObjectDictionary(Map(DictionaryTestEntries())) == Convert(Map(DictionaryTestEntries()), ObjectDictionaryShape);
  }

  lemma {:induction false} TestEntriesConform()
    ensures WellFormed(ObjectDictionaryShape) && Conforms(Map(DictionaryTestEntries()), ObjectDictionaryShape)
  {
    var es := DictionaryTestEntries();
    assert DistinctKeys(es);
    assert forall i :: 0 <= i < |es| ==> !es[i].key.Null? && Conforms(es[i].key, ScalarStr) && Conforms(es[i].val, Any);
  }
}
