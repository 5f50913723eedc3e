# CompositeDataSupport in Dafny

A model of `javax.management.openmbean.CompositeDataSupport`, the immutable
record of the Open MBean type system: a `CompositeType` plus one value for
each of the type's item names, kept in a `TreeMap` sorted by name.

The model covers:

- both constructors: the array form `(compositeType, itemNames[], itemValues[])` and
  the map form `(compositeType, items)`, which delegates to the array form;
- the two argument checks, `checkForNullElement` and `checkForEmptyString`;
- the accessors `get`, `getAll`, `containsKey`, `containsValue` and `values`;
- `equals` and `hashCode`.

Java's `null` becomes `Option.None`. Each exception becomes a `Failure` whose
`Error` says which exception it is: `IllegalArgument`, `OpenData` or `InvalidKey`.

The sorted map is a strictly ascending `seq<Entry>` under the order of
`String.compareTo`. `TreeMap.put` is `Put`, and filling the map from the
name and value arrays is `Build`.

Item values live in `OpenValues`. Each value is one of these:

- `null`;
- a scalar, with its own `equals`;
- a primitive array of one of the eight kinds;
- an `Object[]`.

Every non-null value carries an object identity, so Java's `==`, `equals` and
`Arrays.deepEquals` stay distinct. The deep comparison is checked against a
reference definition, `Erase`, which forgets identities: two values are
deeply equal exactly when their erased forms are equal.

`OpenType.isValue` is a function parameter of the constructors, so every
property holds for any validity test. `CompositeType` is reduced to its type
name and its item-type map.

Modules:

| file | module | contents |
|---|---|---|
| outcomes.dfy | `Outcomes` | `Option`, `Result` and the error taxonomy |
| java_strings.dfy | `JavaStrings` | `String.trim()` and `String.compareTo` |
| open_values.dfy | `OpenValues` | item values, `Arrays.deepEquals`, the `Arrays.hashCode` family |
| sorted_contents.dfy | `SortedContents` | the `TreeMap<String, Object>` of contents |
| composite_data.dfy | `CompositeDataSupport` | the class: constructors, accessors, `equals`, `hashCode` |
| composite_properties.dfy | `CompositeProperties` | properties relating several operations |

## Model

All source paths refer to `src/main/java/javax/management/openmbean/CompositeDataSupport.java`.

| member | source | states |
|---|---|---|
| CompositeDataSupport.CheckNames | src/main/java/javax/management/openmbean/CompositeDataSupport.java:209-232 | A null or empty name array is rejected first. Otherwise the first null element is reported by its index; failing that, the first blank element (blank after `trim()`) is reported by its index. Names that pass are unwrapped unchanged. |
| CompositeDataSupport.FirstNullName | src/main/java/javax/management/openmbean/CompositeDataSupport.java:214-219 | The index reported is the smallest index holding a null name. |
| CompositeDataSupport.FirstBlankName | src/main/java/javax/management/openmbean/CompositeDataSupport.java:226-231 | The index reported is the smallest index holding a blank name. |
| CompositeDataSupport.FirstRejected | src/main/java/javax/management/openmbean/CompositeDataSupport.java:150-158 | The index reported is the smallest whose value is non-null and not a valid value of its item type. |
| CompositeDataSupport.CheckSchema | src/main/java/javax/management/openmbean/CompositeDataSupport.java:135-165 | It fails exactly when the array length differs from the number of item names, when some item name is missing, or when some non-null value is invalid for its type. Each failure is an `OpenDataException`, and an invalid value is reported by its first index. On success the names are pairwise distinct, the record has the given type and conforms to it, and each name maps to its value. |
| CompositeDataSupport.Construct | src/main/java/javax/management/openmbean/CompositeDataSupport.java:102-166 | An `IllegalArgumentException` is raised exactly for malformed arguments: a null type, bad names, null or empty values, or a length mismatch. For well-formed arguments an `OpenDataException` is raised exactly on a schema violation. On success the record has the given type, conforms to it, and every name looks up its own value. |
| CompositeDataSupport.FromMap | src/main/java/javax/management/openmbean/CompositeDataSupport.java:194-204 | The map constructor follows the same IllegalArgument/OpenData split, with both conditions stated on the map itself (a null key, a blank key, an empty map, …). A successful record finds, for every name, exactly the map's value. |
| CompositeDataSupport.Get | src/main/java/javax/management/openmbean/CompositeDataSupport.java:250-259 | A null or blank key gives `IllegalArgumentException`. Otherwise the call succeeds exactly when the trimmed key is an item name, and fails with `InvalidKeyException` naming the trimmed key. A result is the stored value of that name. |
| CompositeDataSupport.GetAll | src/main/java/javax/management/openmbean/CompositeDataSupport.java:271-281 | A null or empty key array gives an empty result. A successful result holds, position by position, what `get` returns for each key. A failure is the failure of some key's `get`, and every earlier key's `get` succeeded. |
| CompositeDataSupport.ContainsKey | src/main/java/javax/management/openmbean/CompositeDataSupport.java:288-294 | True exactly when the key is non-null, not blank, and, without trimming, one of the type's item names. |
| CompositeDataSupport.ContainsValue | src/main/java/javax/management/openmbean/CompositeDataSupport.java:301-304 | True exactly when some stored value equals the argument under plain Java equality (arrays by identity). |
| CompositeDataSupport.Values | src/main/java/javax/management/openmbean/CompositeDataSupport.java:308-316 | There is one value per item name, in ascending name order: the value of item `k` sits at the position equal to the number of names smaller than `k`. |
| CompositeDataSupport.FirstMismatch | src/main/java/javax/management/openmbean/CompositeDataSupport.java:366-382 | The index reported is the smallest entry whose name `other.get` fails on or returns a value not deeply equal to the stored one; none is reported exactly when every entry matches. |
| CompositeDataSupport.ItemsEqual | src/main/java/javax/management/openmbean/CompositeDataSupport.java:366-385 | The loop returns true exactly when `other.get` succeeds for every entry's name with a deeply equal value. Otherwise the first entry that does not match decides: false when its `get` returned an unequal value, and that `get`'s exception when it threw one. |
| CompositeDataSupport.AsView | src/main/java/javax/management/openmbean/CompositeDataSupport.java:355-368 | Seen through the `CompositeData` interface, a record's `values().size()` is its type's number of item names. For every item name the type keeps (non-blank, trimmed), `get` succeeds and returns the value stored under that name. |
| CompositeDataSupport.Equals | src/main/java/javax/management/openmbean/CompositeDataSupport.java:345-386 | The argument is any `CompositeData`: another record, or any implementation given by its type, size and `get`. A record equals itself. It never equals null or a non-`CompositeData`. For any other argument, a type or size mismatch gives false without calling `get`. Otherwise the result is the item loop's verdict, so `get`'s exceptions propagate. The result is true exactly when the types and sizes are equal and `get` succeeds for every item name with a deeply equal value. |
| CompositeDataSupport.HashCode | src/main/java/javax/management/openmbean/CompositeDataSupport.java:409-436 | The hash code is the type's hash plus the hashes of the values `values()` returns, summed in that order. |
| JavaStrings.Trim | src/main/java/javax/management/openmbean/CompositeDataSupport.java:227 | The result of `trim()` is the slice of its input left after removing a prefix and a suffix that consist only of blanks (characters at or below the space character). It is no longer than its input. It is empty exactly when every character is at or below the space character. A non-empty result starts and ends with a non-blank character. |
| JavaStrings.TrimIdempotent | src/main/java/javax/management/openmbean/CompositeDataSupport.java:252-258 | `trim()` is idempotent: trimming a trimmed key changes nothing. |
| JavaStrings.ItemNameIffTrimmed | src/main/java/javax/management/openmbean/CompositeDataSupport.java:250-259 | A name with non-blank first and last characters is exactly a name that is not blank and that `trim()` leaves unchanged, so `get` finds such a name as written. |
| JavaStrings.LeadingSpaceTrimmedAway | src/main/java/javax/management/openmbean/CompositeDataSupport.java:252-258 | A key with an extra leading space trims to the same name. |
| JavaStrings.LessTransitive | src/main/java/javax/management/openmbean/CompositeDataSupport.java:50 | The `compareTo` order the contents map is sorted by is transitive. |
| JavaStrings.LessTotal | src/main/java/javax/management/openmbean/CompositeDataSupport.java:50 | The `compareTo` order is total: distinct names are always comparable. |
| JavaStrings.LessIrreflexive | src/main/java/javax/management/openmbean/CompositeDataSupport.java:50 | No name sorts before itself. |
| JavaStrings.LessAsymmetric | src/main/java/javax/management/openmbean/CompositeDataSupport.java:50 | Two names never sort before each other. |
| OpenValues.DeepEqualsIffSameContent | src/main/java/javax/management/openmbean/CompositeDataSupport.java:368-378 | The per-item comparison of `equals` (identity, then `deepEquals` for arrays, then `equals`) holds exactly when the two values have the same content once object identities are erased. |
| OpenValues.DeepEqualsSymmetric | src/main/java/javax/management/openmbean/CompositeDataSupport.java:374-378 | The item comparison is symmetric. |
| OpenValues.DeepEqualsTransitive | src/main/java/javax/management/openmbean/CompositeDataSupport.java:374-378 | The item comparison is transitive. |
| OpenValues.SameContentDeepEquals | src/main/java/javax/management/openmbean/CompositeDataSupport.java:327-331 | Distinct instances with the same content (an array and a copy of it) compare equal. |
| OpenValues.JavaEqualsIsDeepEquals | src/main/java/javax/management/openmbean/CompositeDataSupport.java:301-304 | The plain equality used by `containsValue` implies the deep equality used by `equals`. |
| OpenValues.DeepEqualsSameHash | src/main/java/javax/management/openmbean/CompositeDataSupport.java:409-433 | Deeply equal item values contribute the same hash: `Arrays.hashCode` or `deepHashCode` for arrays, the value's own hash otherwise. |
| SortedContents.Find | src/main/java/javax/management/openmbean/CompositeDataSupport.java:255-258 | A lookup finds a value exactly when the name is stored, and the value found is stored under that name. |
| SortedContents.PutFind | src/main/java/javax/management/openmbean/CompositeDataSupport.java:164 | After `put(k, v)`, `k` maps to `v`, and every other name maps to what it mapped to before. |
| SortedContents.PutSorted | src/main/java/javax/management/openmbean/CompositeDataSupport.java:164 | `put` keeps the map strictly sorted. |
| SortedContents.PutNames | src/main/java/javax/management/openmbean/CompositeDataSupport.java:164 | `put` adds exactly the one name to the key set. |
| SortedContents.BuildSorted | src/main/java/javax/management/openmbean/CompositeDataSupport.java:163-165 | Filling the map leaves it sorted, with key set equal to the set of names. |
| SortedContents.BuildFind | src/main/java/javax/management/openmbean/CompositeDataSupport.java:163-165 | After filling, each name maps to the value at its last occurrence in the arrays. |
| SortedContents.BuildMissing | src/main/java/javax/management/openmbean/CompositeDataSupport.java:163-165 | A name not in the arrays is not in the filled map. |
| SortedContents.SortedExtensional | src/main/java/javax/management/openmbean/CompositeDataSupport.java:50 | Two sorted maps with the same lookups are the same map, so the stored form is canonical. |
| SortedContents.CoverIsPermutation | src/main/java/javax/management/openmbean/CompositeDataSupport.java:137-147 | If the name array is as long as the type's name set and contains all of it, then the names are pairwise distinct and form exactly that set. |
| CompositeDataSupport.BuildConforms | src/main/java/javax/management/openmbean/CompositeDataSupport.java:149-165 | Putting distinct names with accepted values into an empty map gives sorted contents holding exactly those names, each with its paired value and each valid for its item. |
| SortedContents.BuildHashSum | src/main/java/javax/management/openmbean/CompositeDataSupport.java:409-435 | With distinct names, the hash sum over the filled map equals the hash sum over the value array in argument order. |
| SortedContents.HashSumValues | src/main/java/javax/management/openmbean/CompositeDataSupport.java:412-432 | The hash sum over the stored entries equals the sum of the hashes of their values, taken in storage order. |
| SortedContents.SortedRank | src/main/java/javax/management/openmbean/CompositeDataSupport.java:308-316 | In the sorted map, an entry's position is the number of names smaller than its own. |
| CompositeProperties.GetAfterConstruct | src/main/java/javax/management/openmbean/CompositeDataSupport.java:250-259 | After a successful construction, `get` on each item name returns the value given for it. |
| CompositeProperties.ContainsKeyThenGet | src/main/java/javax/management/openmbean/CompositeDataSupport.java:250-294 | When `containsKey` is true, `get` on the same key succeeds. |
| CompositeProperties.PaddedKeyOnlyGot | src/main/java/javax/management/openmbean/CompositeDataSupport.java:250-294 | The converse fails. `get` finds an item name behind a leading space because it trims the key; `containsKey` does not trim, so it denies the same key. |
| CompositeProperties.ConstructIsBuild | src/main/java/javax/management/openmbean/CompositeDataSupport.java:135-165 | A successful construction had names that list each item of the type exactly once, and its contents are the pairs put into an empty map in argument order. |
| CompositeProperties.ConstructedFind | src/main/java/javax/management/openmbean/CompositeDataSupport.java:162-165 | A constructed record holds a name exactly when the name array contains it. |
| CompositeProperties.ConstructOrderIndependent | src/main/java/javax/management/openmbean/CompositeDataSupport.java:102-166 | Two constructions from the same (name, value) pairs in any order agree. They succeed or fail together, fail in the same exception tier, and succeed with the same record. |
| CompositeProperties.FromMapOrderIndependent | src/main/java/javax/management/openmbean/CompositeDataSupport.java:194-204 | The map constructor's result does not depend on the enumeration order of the map. |
| CompositeProperties.HashOfConstruct | src/main/java/javax/management/openmbean/CompositeDataSupport.java:409-435 | A constructed record hashes to the type's hash plus the sum of the value hashes in argument order. |
| CompositeProperties.ItemsEqualSpec | src/main/java/javax/management/openmbean/CompositeDataSupport.java:366-385 | Against a record's interface, for entries whose names that record holds as trimmed item names, the item loop returns true exactly when every item is deeply equal to the other record's item. |
| CompositeProperties.EqualsCharacterized | src/main/java/javax/management/openmbean/CompositeDataSupport.java:345-386 | For a type with trimmed names, `equals` never fails. It is true exactly when the composite types are equal and each item's values are deeply equal. |
| CompositeProperties.ForeignLikeSupport | src/main/java/javax/management/openmbean/CompositeDataSupport.java:333-338 | Another `CompositeData` implementation that presents the same type, size and `get` as a record gets the same `equals` verdict as that record, including when that record is the receiver itself. |
| CompositeProperties.SelfViewMatches | src/main/java/javax/management/openmbean/CompositeDataSupport.java:355-382 | A record whose type has trimmed names passes every test of the `equals` loop against its own interface: same size, and every entry matched. |
| CompositeProperties.AgreeSameHash | src/main/java/javax/management/openmbean/CompositeDataSupport.java:395-398 | Records whose types are equal and whose items are pairwise deeply equal have equal hash codes. |
| CompositeProperties.EqualsSymmetric | src/main/java/javax/management/openmbean/CompositeDataSupport.java:321-343 | `equals` is symmetric. |
| CompositeProperties.EqualsTransitive | src/main/java/javax/management/openmbean/CompositeDataSupport.java:321-343 | `equals` is transitive. |
| CompositeProperties.EqualsImpliesSameHash | src/main/java/javax/management/openmbean/CompositeDataSupport.java:395-398 | Equal records have equal hash codes. |
| CompositeProperties.CopiesAgree | src/main/java/javax/management/openmbean/CompositeDataSupport.java:327-331 | Records built from the same names and from values of equal content hold deeply equal values for every item. |
| CompositeProperties.CopiesAreEqual | src/main/java/javax/management/openmbean/CompositeDataSupport.java:327-331 | Two records whose values differ only in object identity (arrays copied, say) are equal and hash alike. |

## Left out

- Serialization (`serialVersionUID`) and `toString` are not modelled: they carry no behaviour beyond formatting.
- `getCompositeType` is the record's `compositeType` field.
- `CompositeType` and `OpenType` are not part of this model.
  - `isValue` is a parameter.
  - The type's hash is a stand-in computed from its name.
  - Some lemmas assume (`TrimmedNames`) that a composite type's item names are non-blank and already trimmed, which `CompositeType`'s own constructor guarantees.
- Hash codes are unbounded integers. The 32-bit wrap-around of `int` arithmetic in `hashCode` and `Arrays.hashCode` is not modelled. Every equality-implies-equal-hash property survives reduction modulo 2^32.
- `float` and `double` elements are held as the integers `Float.floatToIntBits` and `Double.doubleToLongBits` give, which map every NaN to one bit pattern. These are the integers `Arrays.equals` compares, so integer equality matches Java's. The element hash of `long` and `double` arrays (high 32 bits XOR low 32 bits) is represented by the element itself.
- A scalar's `equals` and `hashCode` are those of its class name and state, which stands in for arbitrary user classes. Nested `CompositeData` values are scalars here.
- The `ArrayStoreException` of the map constructor cannot arise: map keys are strings by type.
- Arrays are immutable values, so the aliasing of caller arrays and cyclic `Object[]` structures are not modelled.
- Characters are Dafny `char`, so `compareTo` and `trim()` work on Unicode scalar values rather than UTF-16 code units.
- The `this == obj` identity test of `equals` is value equality of records; an argument of another `CompositeData` implementation is never the receiver.
- `CompositeDataSupport.Equals`: another `CompositeData` implementation is modelled only through the three calls `equals` makes on it (`getCompositeType`, `values().size()`, `get`); its `get` is any function, so nothing ties it to its size.
- `CompositeDataSupport.Equals`: a missing name in the other record makes `get` raise `InvalidKeyException`, which the model returns as a `Failure`. The equality lemmas between records assume `TrimmedNames`, under which this cannot happen.
- `CompositeProperties.EqualsSymmetric`: stated for composite types with trimmed names only (see above).
- `CompositeProperties.EqualsTransitive`: stated for composite types with trimmed names only.
- `CompositeProperties.EqualsCharacterized`: stated for composite types with trimmed names only.
- `CompositeProperties.EqualsImpliesSameHash`: stated for composite types with trimmed names only.
- The constructor's documentation says that a null value in the `items` map raises `IllegalArgumentException`. The code accepts null item values: `itemValues[]` may hold nulls, and only the array itself must be non-null and non-empty. The model follows the code.
