# ServiceStack.Text auto-mapping, modelled in Dafny

ServiceStack.Text's auto-mapping engine copies data between unrelated .NET types:

- `ConvertTo<T>` builds a new `T` from any value;
- `PopulateWith` and `PopulateFromPropertiesWith/WithoutAttribute` assign an existing instance's members from another object, optionally filtered by attribute;
- `TranslateListWithElements.TryTranslateCollections` converts lists element-wise;
- `ToObjectDictionary` / `FromObjectDictionary` turn an instance into a string-to-object dictionary and back.

The engine's own source is not part of this model. Its behaviour is taken from the assertions of `tests/ServiceStack.Text.Tests/AutoMappingTests.cs`. The model is a closed world of runtime values and declared types:

- **`Values`.** A `Value` is null, an integer, a string, a boolean, a boxed enum (which knows its enumeration type), a calendar date, a guid (32 hex digits), a list, a dictionary (ordered key/value entries) or a composite instance (ordered named members). A `Shape` is a declared type: `int`/`long`, `string`, `bool`, `DateTime`, `Guid`, `Nullable<T>`, an enum, a collection (sequence, list, array or set), a mapping (dictionary, key/value pair list or `ObjectDictionary`), a composite (its members, each with a name, a property/field kind, a shape and attribute tags), or `object`.
- **`Mapper`.** `Convert` is `ConvertTo`. `Populate` is the populate family with an attribute `Filter`. Also here are `ToObjectDictionary` and `FromObjectDictionary`.
- **`Text`, `Calendar`, `Guids`, `Enums`, `Render`.** The text forms the engine reads and writes: integers, `YYYY-MM-DD` dates, guids in the N/D/B/P layouts, enum names, and the bracketed `{Name:value,...}` / `[a,b]` form of nested values.
- **`Keyed`.** Dictionary indexer semantics and case-insensitive member lookup.
- **`Identity`.** Conversion into one's own type, and to and from base types.
- **`ObjectDictionaries`.** The object-dictionary round trip.
- **`Properties`.** The general laws.
- **`Scenarios`.** The tests' own types and instances, with each asserted outcome as a lemma.

Booleans read and write as `true`/`false` (`Mapper.ParseBool`, `Properties.BoolTextRoundTrip`, `Properties.BoolTextAccepted`), the engine's text form; no test converts a boolean to or from text.

Every operation is a total pure function.

- A conversion that cannot happen is an `Err`.
- A member, list element or dictionary entry that does not convert is left at its default or dropped, as the engine does.
- The `WellFormed` predicate states the C# rules the datatypes cannot express: an enum declares each name once (a duplicate is a compile error), `Nullable<T>` wraps a value type (`where T : struct`), and `ObjectDictionary` maps strings to objects (its declaration). It adds one assumption beyond C#: member names differ ignoring case, although C# accepts both `Name` and `name` in one class. Only the lemmas that rely on these facts require `WellFormed`, and every type used in the tests meets it.

## Model

| member | source | states |
|---|---|---|
| Mapper.Convert | tests/ServiceStack.Text.Tests/AutoMappingTests.cs:221-236 | a successful conversion always yields an instance of the destination type |
| Mapper.ConvertText | tests/ServiceStack.Text.Tests/AutoMappingTests.cs:663-675 | text parsed into any destination type yields an instance of that type when it succeeds |
| Mapper.CoerceScalar | tests/ServiceStack.Text.Tests/AutoMappingTests.cs:247-274 | conversion between integers, enums, booleans, dates and guids yields an instance of the destination when it succeeds |
| Mapper.ListPieces | tests/ServiceStack.Text.Tests/AutoMappingTests.cs:1042-1047 | the items of a list text joined by commas give back the list body; no item has a comma outside quotes, so a quoted string keeps its commas, and every item but the last closes its quotes |
| Mapper.ConvertPieces | tests/ServiceStack.Text.Tests/AutoMappingTests.cs:1042-1047 | each list item is read into the element type in position; an unreadable item leaves the element default |
| Mapper.NewFields | tests/ServiceStack.Text.Tests/AutoMappingTests.cs:357-369 | a fresh instance holds every member at its type's default |
| Mapper.Build | tests/ServiceStack.Text.Tests/AutoMappingTests.cs:736-800 | a pair list keeps its entries as listed; a dictionary has distinct keys, each holding the last value assigned to it |
| Mapper.ConvertToCollection | tests/ServiceStack.Text.Tests/AutoMappingTests.cs:541-573 | conversion into a collection yields a collection of the element type |
| Mapper.ConvertToMapping | tests/ServiceStack.Text.Tests/AutoMappingTests.cs:736-859 | conversion into a mapping yields entries of the key and value types |
| Mapper.ConvertToComposite | tests/ServiceStack.Text.Tests/AutoMappingTests.cs:221-236 | conversion into a composite yields an instance of that composite |
| Mapper.ConvertItems | tests/ServiceStack.Text.Tests/AutoMappingTests.cs:689-711 | element-wise conversion keeps the length and yields elements of the element type |
| Mapper.ConvertItemsPointwise | tests/ServiceStack.Text.Tests/AutoMappingTests.cs:689-711 | element i of the result is element i of the source converted, or the element default; nothing is reordered |
| Mapper.ConvertPairs | tests/ServiceStack.Text.Tests/AutoMappingTests.cs:736-859 | converted entries are never more than the source's, and each has a non-null key of the key type and a value of the value type |
| Mapper.Incoming | tests/ServiceStack.Text.Tests/AutoMappingTests.cs:598-612 | what a member receives from a source is always an instance of the member's type |
| Mapper.PopulateMember | tests/ServiceStack.Text.Tests/AutoMappingTests.cs:485-501 | a member keeps its name; it is untouched when the filter rejects it or nothing comes in, and otherwise holds the incoming value |
| Mapper.Populate | tests/ServiceStack.Text.Tests/AutoMappingTests.cs:205-220 | every destination member is populated independently of the others, and a well-typed instance stays well-typed |
| Mapper.PopulateFrame | tests/ServiceStack.Text.Tests/AutoMappingTests.cs:614-630 | a filtered-out or unmatched member keeps the destination's value; any other member takes the incoming value |
| Mapper.ToObjectDictionary | tests/ServiceStack.Text.Tests/AutoMappingTests.cs:1022-1040 | a composite or dictionary becomes a string-to-object dictionary |
| Mapper.ObjectDictionaryKeys | tests/ServiceStack.Text.Tests/AutoMappingTests.cs:1022-1040 | every key of an object dictionary is a string |
| Mapper.FromObjectDictionary | tests/ServiceStack.Text.Tests/AutoMappingTests.cs:1000-1012 | the instance built from an object dictionary is well-typed |
| Mapper.BuildConforms | tests/ServiceStack.Text.Tests/AutoMappingTests.cs:736-859 | entries of the right key and value types make a well-typed mapping of any kind |
| Keyed.Find | tests/ServiceStack.Text.Tests/AutoMappingTests.cs:736-800 | a key is found exactly when some entry has it, and the value found is that of such an entry |
| Keyed.Put | tests/ServiceStack.Text.Tests/AutoMappingTests.cs:736-800 | assigning through the indexer keeps keys distinct, maps the key to the new value, changes no other key and keeps existing positions |
| Keyed.Dedupe | tests/ServiceStack.Text.Tests/AutoMappingTests.cs:736-800 | after assigning entries one by one, keys are distinct and each holds the value of its last entry |
| Keyed.DedupeDistinct | tests/ServiceStack.Text.Tests/AutoMappingTests.cs:736-800 | entries whose keys are already distinct are kept exactly as listed |
| Keyed.ObjectEntries | tests/ServiceStack.Text.Tests/AutoMappingTests.cs:1022-1040 | a composite's entries are one per member, keyed by member name, in member order |
| Keyed.Lookup | tests/ServiceStack.Text.Tests/AutoMappingTests.cs:866-886 | a destination name pairs with the first source member or string key matching it ignoring case, and with nothing when none matches |
| Keyed.RemoveKeys | tests/ServiceStack.Text.Tests/AutoMappingTests.cs:1000-1012 | removal keeps exactly the entries whose key is not a removed name |
| Identity.ConvertIdentity | tests/ServiceStack.Text.Tests/AutoMappingTests.cs:371-404 | a value that is already an instance of the destination type converts to itself |
| Identity.ConvertIdempotent | tests/ServiceStack.Text.Tests/AutoMappingTests.cs:541-573 | converting twice into the same type is converting once |
| Identity.ConvertIntoComposite | tests/ServiceStack.Text.Tests/AutoMappingTests.cs:221-236 | converting a composite or dictionary into a composite is populating a fresh instance |
| Identity.ConvertObjectIntoMapping | tests/ServiceStack.Text.Tests/AutoMappingTests.cs:1022-1040 | a composite converts into a mapping through its member entries |
| Identity.Upcast | tests/ServiceStack.Text.Tests/AutoMappingTests.cs:700-711 | a derived instance converts into its base type as its base members; its own members are dropped |
| Identity.Downcast | tests/ServiceStack.Text.Tests/AutoMappingTests.cs:422-437 | a base instance converts into a derived type with the inherited members copied and the derived type's own members at their defaults |
| Identity.IncomingFirstMatch | tests/ServiceStack.Text.Tests/AutoMappingTests.cs:371-404 | from its first case-insensitive namesake, a member receives the value converted into its own type; it receives nothing when that value is null or does not convert |
| Identity.IncomingSelf | tests/ServiceStack.Text.Tests/AutoMappingTests.cs:371-404 | a unique case-insensitive namesake holding an instance of the member's type arrives unchanged, whatever its property/field kind; a null one leaves the member at its default |
| Identity.IncomingAbsent | tests/ServiceStack.Text.Tests/AutoMappingTests.cs:221-236 | a member no source member names receives nothing |
| ObjectDictionaries.ObjectDictionaryView | tests/ServiceStack.Text.Tests/AutoMappingTests.cs:1022-1040 | ToObjectDictionary of an instance lists every member under its name, in member order, nulls included |
| ObjectDictionaries.ObjectDictionaryRoundTrip | tests/ServiceStack.Text.Tests/AutoMappingTests.cs:1000-1012 | FromObjectDictionary undoes ToObjectDictionary |
| ObjectDictionaries.FromObjectDictionaryRemoving | tests/ServiceStack.Text.Tests/AutoMappingTests.cs:1000-1012 | after removing keys, members whose key remains come back unchanged and the removed ones are at their defaults |
| Properties.EnumTextRoundTrip | tests/ServiceStack.Text.Tests/AutoMappingTests.cs:275-301 | an enum value converts to its declared name and the name converts back, for plain and nullable members |
| Properties.EnumIntRoundTrip | tests/ServiceStack.Text.Tests/AutoMappingTests.cs:247-274 | an enum value converts to its ordinal and the ordinal converts back, for plain and nullable members |
| Properties.EnumUnknownText | tests/ServiceStack.Text.Tests/AutoMappingTests.cs:238-245 | text naming no enum member, even ignoring case, reads as the zero value |
| Properties.EnumAcrossByName | tests/ServiceStack.Text.Tests/AutoMappingTests.cs:312-346 | an enum value converts into another enumeration as the member with the same name ignoring case, through any nullable wrapper |
| Properties.EnumAcrossRoundTrip | tests/ServiceStack.Text.Tests/AutoMappingTests.cs:312-346 | two enumerations with the same names convert into each other and back without loss |
| Properties.IntTextRoundTrip | tests/ServiceStack.Text.Tests/AutoMappingTests.cs:663-687 | a canonical numeral reads as its integer into int or long, and the integer writes back as the same numeral |
| Properties.IntOverflow | tests/ServiceStack.Text.Tests/AutoMappingTests.cs:440-447 | an integer outside the destination width's range does not convert (one branch of `Convert`, used as a step by the laws) |
| Properties.ConvertFromText | tests/ServiceStack.Text.Tests/AutoMappingTests.cs:663-675 | a string converts by parsing for every destination that is neither string, object nor nullable (one branch of `Convert`, used as a step by the laws) |
| Properties.ConvertToText | tests/ServiceStack.Text.Tests/AutoMappingTests.cs:676-687 | any non-null value converts into a string as its text form (one branch of `Convert`, used as a step by the laws) |
| Properties.DateTextRoundTrip | tests/ServiceStack.Text.Tests/AutoMappingTests.cs:663-687 | a date writes as YYYY-MM-DD and that text reads back as the date |
| Properties.DateFromText | tests/ServiceStack.Text.Tests/AutoMappingTests.cs:663-675 | a written date converts back into a DateTime member as the same date |
| Properties.TextIntoDate | tests/ServiceStack.Text.Tests/AutoMappingTests.cs:663-675 | a string the date parser accepts converts into a DateTime as the date it denotes (one branch of `Convert`, used as a step by the laws) |
| Mapper.ParseBool | tests/ServiceStack.Text.Tests/AutoMappingTests.cs:1014-1040 | text reads as a boolean exactly when its lower-case form is what the writer `BoolText` writes for that boolean, so reading inverts writing up to case (the `bool C` member of `DictionaryTest` is the only boolean the tests use) |
| Properties.BoolTextRoundTrip | tests/ServiceStack.Text.Tests/AutoMappingTests.cs:1014-1040 | a boolean converts into a string as `true` or `false`, and that text converts back to the boolean |
| Properties.BoolTextAccepted | tests/ServiceStack.Text.Tests/AutoMappingTests.cs:1014-1040 | text converts into a boolean exactly when it is a written boolean up to case, and then as the boolean whose written form is its lower-case text |
| Properties.DateTextCanonical | tests/ServiceStack.Text.Tests/AutoMappingTests.cs:663-687 | every date text that converts is exactly what its date writes back |
| Properties.GuidTextRoundTrip | tests/ServiceStack.Text.Tests/AutoMappingTests.cs:663-687 | a guid writes as 32 lower-case hex digits and reads back; any accepted guid text writes back lower-cased with punctuation stripped |
| Properties.NullConversion | tests/ServiceStack.Text.Tests/AutoMappingTests.cs:348-369 | null converts to the destination default: null for reference and nullable types, zero for value types (one branch of `Convert`, used as a step by the laws) |
| Properties.NullableTransparent | tests/ServiceStack.Text.Tests/AutoMappingTests.cs:357-369 | a present value converts into T? exactly as into T (one branch of `Convert`, used as a step by the laws) |
| Properties.PopulateRetainsOnNull | tests/ServiceStack.Text.Tests/AutoMappingTests.cs:598-612 | a member whose source is null or missing keeps its value, whatever the filter |
| Properties.PopulateAligned | tests/ServiceStack.Text.Tests/AutoMappingTests.cs:371-404 | populating from members named like the destination's assigns each member from its namesake, property or field alike |
| Properties.PopulateAlignedTo | tests/ServiceStack.Text.Tests/AutoMappingTests.cs:205-220 | a populate whose result is known member by member yields that instance |
| Properties.ConvertAligned | tests/ServiceStack.Text.Tests/AutoMappingTests.cs:221-236 | ConvertTo between composites with the same member names converts member by member, defaults where nothing converts |
| Properties.ConvertAlignedTo | tests/ServiceStack.Text.Tests/AutoMappingTests.cs:221-236 | a conversion whose result is known member by member yields that instance |
| Properties.AssignFresh | tests/ServiceStack.Text.Tests/AutoMappingTests.cs:357-369 | a fresh member populated from its namesake holds the converted value, or its default when there is none |
| Properties.FilteredPopulate | tests/ServiceStack.Text.Tests/AutoMappingTests.cs:485-501 | a member the filter admits is populated as without a filter; every other member keeps the destination's value |
| Properties.CollectionOrder | tests/ServiceStack.Text.Tests/AutoMappingTests.cs:541-573 | a list converts element by element, in order, into any collection kind |
| Properties.CollectionKindIrrelevant | tests/ServiceStack.Text.Tests/AutoMappingTests.cs:541-573 | sequence, list, array and set destinations receive the same elements |
| Properties.CollectionKindChange | tests/ServiceStack.Text.Tests/AutoMappingTests.cs:541-573 | a list of element-type instances converts into any collection kind unchanged |
| Properties.ListTextRoundTrip | tests/ServiceStack.Text.Tests/AutoMappingTests.cs:1042-1047 | a list written as text reads back as the same list when each element's text is one item (no comma outside quotes) and reads back as its element |
| Properties.TextIntoCollection | tests/ServiceStack.Text.Tests/AutoMappingTests.cs:1042-1047 | a string converts into a collection by splitting its list body and reading each piece (one branch of `ConvertText`, used as a step by the laws) |
| Properties.ListTextPieces | tests/ServiceStack.Text.Tests/AutoMappingTests.cs:1042-1047 | a written list splits back into its written elements |
| Properties.IntListTextRoundTrip | tests/ServiceStack.Text.Tests/AutoMappingTests.cs:1042-1047 | a list of in-range integers writes as text and reads back |
| Properties.StrListTextRoundTrip | tests/ServiceStack.Text.Tests/AutoMappingTests.cs:1042-1047 | a list of strings, commas and quotes included, writes as text and reads back, except the list holding only the empty string |
| Properties.MappingConvert | tests/ServiceStack.Text.Tests/AutoMappingTests.cs:736-859 | a dictionary or pair list converts entry by entry into any mapping destination |
| Properties.ConvertPairsPointwise | tests/ServiceStack.Text.Tests/AutoMappingTests.cs:736-859 | when every entry converts, each key and each value is converted on its own, in order, and none is dropped |
| Properties.SingleEntryConvert | tests/ServiceStack.Text.Tests/AutoMappingTests.cs:736-800 | a one-entry dictionary converts into any mapping as its entry with key and value converted |
| Properties.SingleEntryDropped | tests/ServiceStack.Text.Tests/AutoMappingTests.cs:802-859 | a one-entry dictionary whose key or value does not convert converts to an empty mapping |
| Properties.PairsSkip | tests/ServiceStack.Text.Tests/AutoMappingTests.cs:802-859 | an entry whose key or value does not convert, or whose key converts to null, is skipped and the entries after it are still converted |
| Properties.ConvertibleEntries | tests/ServiceStack.Text.Tests/AutoMappingTests.cs:802-859 | the entries kept are exactly those whose key and value both convert |
| Properties.ConvertEach | tests/ServiceStack.Text.Tests/AutoMappingTests.cs:736-859 | each kept entry is converted key and value on its own, in order, none lost |
| Properties.ConvertPairsFiltered | tests/ServiceStack.Text.Tests/AutoMappingTests.cs:736-859 | entry-wise conversion yields, in order, the converted form of exactly the entries that convert: a failing entry drops only itself |
| Properties.MappingConvertFiltered | tests/ServiceStack.Text.Tests/AutoMappingTests.cs:736-859 | a dictionary or pair list with any number of failing entries converts into any mapping as the mapping built from its converting entries |
| Properties.MappingKindRoundTrip | tests/ServiceStack.Text.Tests/AutoMappingTests.cs:736-800 | a dictionary's entries survive conversion into a pair list and back |
| Text.FormatInt | tests/ServiceStack.Text.Tests/AutoMappingTests.cs:676-687 | an integer's text is a canonical numeral that reads back as the integer |
| Text.CanonicalNumeralRoundTrip | tests/ServiceStack.Text.Tests/AutoMappingTests.cs:663-675 | every canonical numeral is what its integer writes |
| Calendar.ParseFormatDate | tests/ServiceStack.Text.Tests/AutoMappingTests.cs:663-687 | a written date reads back as itself |
| Calendar.FormatParseDate | tests/ServiceStack.Text.Tests/AutoMappingTests.cs:663-687 | every accepted date text is exactly what its date writes |
| Guids.ParseFormatGuid | tests/ServiceStack.Text.Tests/AutoMappingTests.cs:663-687 | a written guid reads back as itself |
| Guids.FormatParseGuid | tests/ServiceStack.Text.Tests/AutoMappingTests.cs:663-687 | any accepted guid layout, in either case, writes back as its digits in lower case |
| Enums.EnumText | tests/ServiceStack.Text.Tests/AutoMappingTests.cs:238-245 | an enum value's text is its declared name, or the numeral of its ordinal when it has no name |
| Enums.EnumFromText | tests/ServiceStack.Text.Tests/AutoMappingTests.cs:289-301 | text reads as the member with exactly that name, else one with the name ignoring case, else zero |
| Enums.EnumAcross | tests/ServiceStack.Text.Tests/AutoMappingTests.cs:312-355 | an enum value maps to a target member with the same name ignoring case, or to zero when there is none |
| Render.Escape | tests/ServiceStack.Text.Tests/AutoMappingTests.cs:205-236 | a nested string is written verbatim when plain, and quoted otherwise |
| Render.UnescapeEscape | tests/ServiceStack.Text.Tests/AutoMappingTests.cs:1042-1047 | reading back a written nested string gives the string |
| Render.RenderValue | tests/ServiceStack.Text.Tests/AutoMappingTests.cs:205-236 | a nested list is written in square brackets, and a dictionary or composite in braces |
| Render.SplitItems | tests/ServiceStack.Text.Tests/AutoMappingTests.cs:1042-1047 | a list body splits at the commas outside quotes: the items joined by commas give back the body, no item has a comma outside quotes, and every item but the last closes its quotes |
| Render.SplitItemsJoin | tests/ServiceStack.Text.Tests/AutoMappingTests.cs:1042-1047 | splitting a comma join of items, each without a comma outside quotes and with its quotes closed, gives back the items |
| Render.EscapeWhole | tests/ServiceStack.Text.Tests/AutoMappingTests.cs:1042-1047 | every written string is one item: its commas and quotes never split it |
| Render.ScalarWhole | tests/ServiceStack.Text.Tests/AutoMappingTests.cs:205-236 | a written null, integer, string or boolean is one item |
| Render.PresentFields | tests/ServiceStack.Text.Tests/AutoMappingTests.cs:205-236 | the members written are exactly those whose value is not null |
| Render.FieldsWritten | tests/ServiceStack.Text.Tests/AutoMappingTests.cs:205-236 | a composite's pieces are, in member order, `Name:value` for each member that is not null |
| Render.LabelledWhole | tests/ServiceStack.Text.Tests/AutoMappingTests.cs:205-236 | `Name:value` is one item when the name has no structural character and the value is one item |
| Properties.CompositeText | tests/ServiceStack.Text.Tests/AutoMappingTests.cs:205-236 | a composite converts into a string as `{}` when every member is null, and otherwise as braces around text that splits at the commas outside quotes into `Name:value` for each non-null member, in order |
| Render.PresentEntries | tests/ServiceStack.Text.Tests/AutoMappingTests.cs:205-236 | the dictionary entries written are exactly those whose value is not null |
| Render.EntriesWritten | tests/ServiceStack.Text.Tests/AutoMappingTests.cs:205-236 | a dictionary's pieces are, in entry order, `key:value` for each entry whose value is not null |
| Properties.DictionaryText | tests/ServiceStack.Text.Tests/AutoMappingTests.cs:205-236 | a dictionary converts into a string as `{}` when every value is null, and otherwise as braces around text that splits at the commas outside quotes into `key:value` for each entry with a value, in order |
| Values.DefaultOf | tests/ServiceStack.Text.Tests/AutoMappingTests.cs:348-369 | a default is an instance of its type, and it is null exactly for types that admit null |
| Scenarios.CarText | tests/ServiceStack.Text.Tests/AutoMappingTests.cs:205-236 | the car BMW X6 aged 3 converts into a string member as `{Name:BMW X6,Age:3}` |
| Scenarios.UserDtoFromUser | tests/ServiceStack.Text.Tests/AutoMappingTests.cs:205-236 | each UserDto member receives the user's member of the same name, the car as text |
| Scenarios.DoesPopulate | tests/ServiceStack.Text.Tests/AutoMappingTests.cs:205-220 | `new UserDto().PopulateWith(user)` holds the names and the car text |
| Scenarios.DoesTranslate | tests/ServiceStack.Text.Tests/AutoMappingTests.cs:221-236 | `user.ConvertTo<UserDto>()` holds the names and the car text |
| Scenarios.EnumToName | tests/ServiceStack.Text.Tests/AutoMappingTests.cs:238-245 | Blue converts to "Blue", and a null nullable color to null |
| Scenarios.EnumToInt | tests/ServiceStack.Text.Tests/AutoMappingTests.cs:247-274 | Green, plain and nullable, converts to 1, and 1 converts back to Green |
| Scenarios.EnumToText | tests/ServiceStack.Text.Tests/AutoMappingTests.cs:275-301 | Green, plain and nullable, converts to "Green", and "Green" converts back to Green |
| Scenarios.EnumAcrossTypes | tests/ServiceStack.Text.Tests/AutoMappingTests.cs:312-346 | Color.Green in a plain or nullable member converts into plain or nullable OtherColor as OtherColor.Green |
| Scenarios.NullEnumAcrossTypes | tests/ServiceStack.Text.Tests/AutoMappingTests.cs:348-355 | a null Color? converts into OtherColor as its first declared member |
| Scenarios.NullableIntToAndFrom | tests/ServiceStack.Text.Tests/AutoMappingTests.cs:357-369 | a null int? converts into int as 0, and 10 converts into int? as 10 |
| Scenarios.PropertiesAndFields | tests/ServiceStack.Text.Tests/AutoMappingTests.cs:371-437 | User, UserFields and their subclasses convert into each other unchanged |
| Scenarios.OnlyDataMember | tests/ServiceStack.Text.Tests/AutoMappingTests.cs:485-501 | populating with a DataMember filter copies LastName only |
| Scenarios.ModelsWithCollections | tests/ServiceStack.Text.Tests/AutoMappingTests.cs:541-573 | two users convert unchanged and in order between models and collections of every kind |
| Scenarios.RetainsNullMembers | tests/ServiceStack.Text.Tests/AutoMappingTests.cs:598-607 | a user with only FirstName set converts into UserFields with LastName and Car null |
| Scenarios.RetainsNullComposite | tests/ServiceStack.Text.Tests/AutoMappingTests.cs:608-612 | a null CompanyInfo converts into CustomerDto as null |
| Scenarios.WithoutReadOnly | tests/ServiceStack.Text.Tests/AutoMappingTests.cs:614-630 | populating without ReadOnly members copies Id and Name, and Ignored stays 10 |
| Scenarios.BclIntegers | tests/ServiceStack.Text.Tests/AutoMappingTests.cs:440-483 | integers convert between int and long unchanged, and the Int and Long members convert to and from their text |
| Scenarios.IntValueTypes | tests/ServiceStack.Text.Tests/AutoMappingTests.cs:663-687 | "1" converts into int and long as 1, and 1 into string as "1" |
| Scenarios.DateValueType | tests/ServiceStack.Text.Tests/AutoMappingTests.cs:663-687 | "2001-01-01" converts into that date, and the date writes back as "2001-01-01" |
| Scenarios.ListOfObjects | tests/ServiceStack.Text.Tests/AutoMappingTests.cs:689-698 | a list of cars typed as object converts into a list of the same cars |
| Scenarios.SubCarToCar | tests/ServiceStack.Text.Tests/AutoMappingTests.cs:700-711 | a SubCar converts into Car by dropping its own member |
| Scenarios.ListOfSubtypes | tests/ServiceStack.Text.Tests/AutoMappingTests.cs:700-711 | a list of SubCars converts into a list of their Car parts, in order |
| Scenarios.ListElementwise | tests/ServiceStack.Text.Tests/AutoMappingTests.cs:689-711 | a list whose every element converts converts into the list of converted elements |
| Scenarios.DictionaryValues | tests/ServiceStack.Text.Tests/AutoMappingTests.cs:736-800 | `{a: 1}` and `{a: "1"}` convert into object, string and int values as the test asserts, for every mapping kind |
| Scenarios.DictionaryKeys | tests/ServiceStack.Text.Tests/AutoMappingTests.cs:802-859 | `{1: "a"}` and `{"1": "a"}` convert into object, string and int keys as the test asserts, for every mapping kind |
| Scenarios.DictionaryToHasObject | tests/ServiceStack.Text.Tests/AutoMappingTests.cs:861-886 | the key "value" populates member Value, which receives the nested dictionary unchanged |
| Scenarios.WithoutIgnoreOnSelect | tests/ServiceStack.Text.Tests/AutoMappingTests.cs:981-998 | populating a ViewModel without IgnoreOnSelect members copies Public, and Private stays null |
| Scenarios.RemoveIgnoredKey | tests/ServiceStack.Text.Tests/AutoMappingTests.cs:1000-1012 | removing the Private key from the object dictionary restores Public and leaves Private null |
| Scenarios.InstanceToObjectDictionary | tests/ServiceStack.Text.Tests/AutoMappingTests.cs:1014-1040 | a DictionaryTest instance's object dictionary is `{A: "a", B: 1, C: true}` |
| Scenarios.DictionaryToObjectDictionary | tests/ServiceStack.Text.Tests/AutoMappingTests.cs:1014-1040 | the expected dictionary converts to an object dictionary unchanged |
| Scenarios.TextToStrings | tests/ServiceStack.Text.Tests/AutoMappingTests.cs:1042-1047 | "a,b,c" converts into a string array as ["a","b","c"] |
| Scenarios.TextToInts | tests/ServiceStack.Text.Tests/AutoMappingTests.cs:1042-1047 | "1,2,3" converts into an int array as [1,2,3] |

## Left out

- Floating-point and decimal values: the `float`, `double` and `decimal` members and literals (lines 303-310, 440-483, 663-687) need IEEE and decimal text formatting. Only integers, strings, booleans, enums, dates and guids are modelled. The `decimal` to `decimal?` test has no model.
- Scenarios.BclIntegers: covers only the `int`/`long` parts of `BclTypes` and `BclTypeStrings`, for the same reason.
- Scenarios.InstanceToObjectDictionary: `DictionaryTest`'s `double D` and the anonymous-object case are not modelled. An anonymous object is modelled like any composite instance.
- Scenarios.DictionaryToHasObject: the second half of the test builds `kvps` but converts `objDict` again, so it asserts nothing new.
- The concrete guid literals of lines 673 and 686 are covered only by the general laws `Properties.GuidTextRoundTrip` and `Guids.FormatParseGuid`, not as literal texts.
- `PropertyExpressionTests`: compiled expression setters, `CreateInstance` and the stream DTO (lines 907-958) are reflection and code generation.
- JSON serialization and `JsConfig.IgnoreAttributesNamed` (lines 632-660): serializer output, not mapping.
- `Uri` mapping and `AutoMappingUtils.CreateDefaultValue` (lines 713-718, 960-979): wrappers over framework types that are not part of this model.
- `GetKeyValuePairsTypes` (lines 720-735): reflection over generic type arguments. Mapping shapes carry their key and value types directly.
- `ModelWithAllTypes`, `ModelWithFieldsOfDifferentTypes*` and `Dump()` (lines 503-540, 1049-1071): their types are declared in files that are not part of this model.
- Array-to-string conversion (lines 1073-1078): the test asserts only a non-empty result.
- `HashSet` deduplication: a set destination is modelled as keeping every element in order. Duplicate elimination belongs to the container, and the test's users are distinct.
- The process-wide type and accessor cache and its thread safety: a pure function has no cache.
- Times of day: dates are date-only, the only form the tests use.
- Case folding is ASCII only; culture-specific folding is not modelled.
- Text into composites or mappings does not convert (an `Err`). The tests never parse bracketed text back into an object.
- Property initializers: a fresh instance starts with every member at its type's default.
- Mapper.ConvertText: unknown enum text reads as the enum's zero value rather than failing, as `Properties.EnumUnknownText` states. No test asserts either behaviour.
- Mapper.Populate: attribute filters are tested against the destination member's tags. Both filtered tests populate a type from itself, where source and destination tags coincide.
- Mapper.ListPieces: a list body is split at every comma outside quotes, with no regard to brackets. A list of lists, or of composites with more than one member, does not read back. The tests never read nested bracketed text, and text into composites is not modelled at all.
- Properties.ListTextRoundTrip: requires each element's text to be one item, which excludes nested lists and composites with more than one member, for the reason above.
- Properties.CompositeText and Properties.DictionaryText: require each written member name, key and value to be one item. A nested list or composite written inside a composite is not split back. No test writes a dictionary as text; the model writes it in the composite's `{key:value,...}` form.
- Enums.EnumText: an enum value is its position in the declaration, so the integer of a member is its position. Explicit member values, such as `ClassWithEnumType { One = 1, Two = 2, Three = 3 }` at lines 890-895, cannot be represented. That type is used only by `CreateDefaultValue` at line 716, which is not part of this model.
- Properties.EnumIntRoundTrip: the integer it relates to a member is the member's declaration position, for the reason above.
- Identity.ConvertIdentity: assumes member names differ ignoring case. When two members' names differ only in case, the model gives both the value of the first such source member, so `Convert(Obj([A:1, a:2]), Composite([A:int, a:int]))` is `Obj([A:1, a:1])`. Identity.ConvertIdempotent, Identity.Upcast, Identity.Downcast, Identity.IncomingSelf and ObjectDictionaries.ObjectDictionaryRoundTrip carry the same assumption.
- Identity.Upcast and Identity.Downcast: a derived type's members are modelled as its base members followed by its own. This is a modelling choice: the engine's member order is not part of this model, and .NET documents no particular order for reflected properties. Members are matched by name, so the order only affects written text, and no test writes a derived instance as text.
- Mapper.ConvertText and Mapper.CoerceScalar: an enum value is an `int`, so a member position outside the 32-bit range would be an overflow error. No C# enum can declare that many members; the branch exists only so that every produced enum value is representable.
- Properties.BoolTextRoundTrip and Properties.BoolTextAccepted: no test converts a boolean to or from text; `DictionaryTest.C` (line 1018) only passes through an object dictionary unchanged. The text form is the engine's `true`/`false`.
