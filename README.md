# sql-tables in Dafny

A model of the core of the `sql-tables` library (vendored under
`node_modules/sql-tables/src` of the bamazon repository). The library keeps a
PostgreSQL database in line with a schema declared in TypeScript. The model
covers the following:

- **Declared schema.** Type tags, constraints, relations, column props and
  tables. Shorthand is expanded into strict form (`strictify`).
- **Static type tables.** PostgreSQL text and TypeScript names for each
  generic type (`type-mappings.ts`), and the per-type value converters
  (`type-converters.ts`).
- **Guards.** The runtime predicates of `schema-guards.ts`.
- **DDL text.** `CREATE TABLE`, column, constraint, default, reference and
  composite-key texts (`sql.ts`, `fixer-functions.ts`). Also the
  dependency-ordered table list `orderDependencies`, a depth-first walk with
  a visited dictionary and an ancestor stack. It is proved equal to a
  functional definition.
- **Schema-vs-database diff** (`checker-functions.ts`, `checkers-types.ts`).
  It takes the live table names and `information_schema.columns` records as
  plain sequences.
- **Fix planning** (`maintainers.ts`). `validateDatabase` followed by
  `fixValidations` becomes a pure function. It maps (schema, live tables,
  live columns, controls) to (fix statements, residual validations).
- **Parameterised DML text** (`table.ts`):
  - the `$n` placeholder numbering of SELECT, INSERT, UPDATE and DELETE;
  - the multi-row VALUES fold `makeParamReducer`;
  - filtering and coercion of input against a table definition;
  - the small reducers used by insert-or-select.
- **TypeScript interface text** (`schema-to-typescript.ts`).

How the JavaScript carries over:

- **Dictionaries.** A JavaScript object used as a dictionary is an
  association list `seq<(string, V)>` in `Object.keys` order. `Object.keys`
  order decides dependency order, first matches and the order of
  validations.
- **Values.** Dynamically typed values are a small `Value` datatype (integer,
  string, boolean, null, undefined, NaN) with JavaScript truthiness.
- **Exceptions.** A thrown exception is an `Err` value.
- **Mutation.** Where the library mutates an object in place, the model uses
  classes with `modifies` clauses:
  - the `orderDependencies` walk state;
  - `augmentObjIfNew`;
  - `mutateStructIntoSchemaStructs`.
- **Loops.** The accumulator loops of `validatePropValsForInput` and
  `reduceByKeys` push into local arrays only. They are methods with `while`
  loops over local sequences, proved equal to the functions that specify them.

Where the code and its evident intent part ways, the model does two things.
It states the code as written and exhibits the discrepancy. It also gives a
corrected definition, which the rest of the model uses (see "## Findings").
The model also settles two doubtful points:
- A live table that the schema does not know **is** flagged `not in code`
  (`createCheckForTableInCode`).
- `compareNullConstraints` consults `NotNull` only, never `PrimaryKey`.

In both cases the model follows the code.

The source files are modelled as follows (one Dafny module per file):

| Dafny file | models |
|---|---|
| `js.dfy` | the JavaScript built-ins the library leans on (`val + ''`, `parseInt`, `toLowerCase`, `trim`, `join`, `split`, `slice`) |
| `util.dfy` | `util.ts`, and `Array.prototype.filter` as the library uses it |
| `schema.dfy` | `schema/schema.ts` (types only) |
| `schema_guards.dfy` | `schema/schema-guards.ts` |
| `type_mappings.dfy` | `schema/type-mappings.ts` |
| `type_converters.dfy` | `type-converters.ts` |
| `sql.dfy` | `schema/queries/sql.ts` |
| `fixer_schema.dfy` | `strictify*`, `mutateStructIntoSchemaStructs` of `fixer-functions.ts` |
| `fixer_columns.dfy` | the column, constraint and table text builders of `fixer-functions.ts` |
| `dependencies.dfy` | `orderDependencies` of `fixer-functions.ts` |
| `checkers_types.dfy` | `schema/maintainers/checkers-types.ts` |
| `checker_functions.dfy` | `schema/maintainers/checker-functions.ts` |
| `maintainers.dfy` | `schema/maintainers/maintainers.ts` |
| `table.dfy` | the query builders and reducers of `table.ts` |
| `schema_to_typescript.dfy` | `schema/schema-to-typescript.ts` |

## Model

Where a row's member is a lemma about an operation, its third column starts with "of `M.F`:", naming the function or method that models the source function.

| member | source | states |
|---|---|---|
| Js.NatToDecimal | node_modules/sql-tables/src/util.ts:95-97 | the string form of a natural number is a non-empty run of decimal digits with no leading zero |
| Js.DigitChar | node_modules/sql-tables/src/util.ts:95-97 | the character of a digit 0..9 is a decimal digit whose code is that of `0` plus the digit |
| Js.DecimalValue | node_modules/sql-tables/src/util.ts:95-97 | reading the digits of that string form back gives the number |
| Js.TrimStart | node_modules/sql-tables/src/schema/queries/sql.ts:64 | the result is a suffix of the input that starts with something other than white space, and an input that starts that way is unchanged |
| Js.TrimEnd | node_modules/sql-tables/src/schema/maintainers/fixer-functions.ts:119 | the result is a prefix of the input that ends with something other than white space |
| Js.DigitPrefix | node_modules/sql-tables/src/util.ts:157-159 | the longest prefix made only of decimal digits: the next character, if any, is not a digit |
| Js.ParseIntString | node_modules/sql-tables/src/util.ts:157-159 | `parseInt(s, 10)` is always an integer or NaN |
| Js.ParseSigned | node_modules/sql-tables/src/util.ts:157-159 | after the white space, an optional sign and a digit run give an integer or NaN |
| Js.ParseInt | node_modules/sql-tables/src/util.ts:157-159 | `parseInt(val, 10)` of any value is an integer or NaN |
| Js.DigitPrefixOfDigits | node_modules/sql-tables/src/util.ts:157-159 | a string of digits is its own longest digit prefix |
| Js.ParseIntNoDigits | node_modules/sql-tables/src/util.ts:157-159 | a string starting with neither white space, a sign nor a digit parses to NaN |
| Js.ParseIntDigits | node_modules/sql-tables/src/util.ts:157-159 | a string of digits parses to its decimal value |
| Js.ParseIntOfInt | node_modules/sql-tables/src/util.ts:157-159 | round trip: `parseInt(String(i))` is `i` for every integer, negative ones included |
| Js.ParseIntOfUndefined | node_modules/sql-tables/src/util.ts:157-159 | `parseInt(undefined)` is NaN |
| Js.ToLower | node_modules/sql-tables/src/util.ts:264 | lower-casing keeps the length and maps each character to its lower-case form, ASCII letters only |
| Js.ToLowerIdempotent | node_modules/sql-tables/src/util.ts:264-270 | lower-casing twice is lower-casing once |
| Js.JoinSnoc | node_modules/sql-tables/src/schema/queries/sql.ts:76-88 | joining one more part appends the separator and that part |
| Js.IndexOfChar | node_modules/sql-tables/src/schema/maintainers/maintainers.ts:98 | the first position of a character, or -1 exactly when it does not occur |
| Js.Split | node_modules/sql-tables/src/schema/maintainers/maintainers.ts:98 | `split` yields at least one part |
| Js.SplitPair | node_modules/sql-tables/src/schema/maintainers/maintainers.ts:98 | splitting `t.c` at `.` gives back `t` and `c` when neither holds a dot |
| Js.SplitJoin | node_modules/sql-tables/src/schema/maintainers/maintainers.ts:98 | splitting a join at its one-character separator gives back the parts when none holds it |
| Js.SlicePrefix | node_modules/sql-tables/src/util.ts:101 | `s.slice(0, end)` is the prefix of length `end`, shortened to the whole string, or counted from the end for a negative `end` |
| Util.IndexOfKey | node_modules/sql-tables/src/util.ts:59-62 | the position of the first entry with a key, or -1 when no entry has it |
| Util.Get | node_modules/sql-tables/src/util.ts:61 | `d[key]` is defined exactly for the own keys |
| Util.GetFirst | node_modules/sql-tables/src/util.ts:61 | the first entry carrying a key is the one a lookup finds |
| Util.GetAbsent | node_modules/sql-tables/src/util.ts:61 | a key that no entry carries is undefined |
| Util.Put | node_modules/sql-tables/src/util.ts:23 | after `d[key] = v` the key holds `v` and every other key is unchanged |
| Util.PutKeys | node_modules/sql-tables/src/util.ts:23 | assignment keeps the key order: an existing key stays in place, a new key goes last |
| Util.PutUnique | node_modules/sql-tables/src/util.ts:23 | assignment never creates a duplicate key |
| Util.PutNew | node_modules/sql-tables/src/util.ts:23 | assigning a new key appends its entry |
| Util.ArrToObjAbsent | node_modules/sql-tables/src/util.ts:7-27 | `arrToObj(arr, prop)` has no entry for a key that no element produces |
| Util.ArrToObjLastWins | node_modules/sql-tables/src/util.ts:7-27 | of `Util.ArrToObj`: in `arrToObj(arr, prop)` a key maps to the last element that produces it |
| Util.ArrToObjAggregateGet | node_modules/sql-tables/src/util.ts:17-21 | of `Util.ArrToObjAggregate`: with `aggregate`, each key maps to exactly the elements with that key, in their original order |
| Util.ArrToObjAggregateUnique | node_modules/sql-tables/src/util.ts:7-27 | the aggregated object holds each key once |
| Util.ArrToObjUnique | node_modules/sql-tables/src/util.ts:7-27 | the plain object holds each key once |
| Util.WithKeyIndices | node_modules/sql-tables/src/util.ts:17-21 | the elements with key `k` are the elements at exactly the indices where `k` occurs |
| Util.ArrToObjAggregateIndices | node_modules/sql-tables/src/util.ts:17-21 | the group of `k` is the elements at exactly the indices where `k` occurs, and absent when there are none |
| Util.ArrToObjDistinct | node_modules/sql-tables/src/util.ts:7-27 | with distinct keys, `arrToObj` keeps every element, in order |
| Util.ZipGet | node_modules/sql-tables/src/util.ts:65-78 | of `Util.Zip`: in `zip(keys, values)`, the key at index i maps to `values[i]` (undefined past the end) when no later key repeats it, so the last duplicate wins |
| Util.ZipKeys | node_modules/sql-tables/src/util.ts:73-78 | the keys of `zip(keys, values)` are exactly the given keys |
| Util.UnzipParallel | node_modules/sql-tables/src/util.ts:80-93 | `unzip` gives the keys and the values as parallel lists in key order |
| Util.ZipIgnoresLaterValues | node_modules/sql-tables/src/util.ts:65-78 | values past the last key are ignored |
| Util.ZipDistinct | node_modules/sql-tables/src/util.ts:65-78 | with distinct keys, `zip` pairs the i-th key with the i-th value, in order |
| Util.ZipUnzip | node_modules/sql-tables/src/util.ts:73-93 | `zip` undoes `unzip` on a dictionary |
| Util.ObjFilterKeys | node_modules/sql-tables/src/util.ts:38-50 | `objFilter` keeps only keys of its input |
| Util.ObjFilterGet | node_modules/sql-tables/src/util.ts:38-50 | on a dictionary, an entry survives `objFilter` exactly when the callback accepts it, with its value |
| Util.ToStringMax | node_modules/sql-tables/src/util.ts:99-102 | the result is a prefix of the string form, no longer than `max`, and the whole string form when it fits |
| Util.IntMinBound | node_modules/sql-tables/src/util.ts:104-112 | `toIntMin` is an integer exactly when `parseInt` is, never below `min`, and the parsed value when it is not below `min` |
| Util.IntMaxBound | node_modules/sql-tables/src/util.ts:114-122 | `toIntMax` is an integer exactly when `parseInt` is, never above `max`, and the parsed value when it is not above `max` |
| Util.GtZeroIntMaxBound | node_modules/sql-tables/src/util.ts:124-136 | for `max >= 0`, `toGtZeroIntMax` lies in [0, max] |
| Util.IntBetweenBound | node_modules/sql-tables/src/util.ts:161-173 | for `min <= max`, `toIntBetween` lies in [min, max], and it is the identity inside that range |
| Util.IntBetweenOfInt | node_modules/sql-tables/src/util.ts:161-173 | an integer inside the range passes through unchanged |
| Util.IntBetweenOptionalCases | node_modules/sql-tables/src/util.ts:175-191 | with no bounds the value is returned as it is. With one bound it is clamped on that side only; with both it is clamped between them |
| Util.ToSqlBoolean | node_modules/sql-tables/src/util.ts:146-151 | the text is `TRUE` exactly for a truthy value, otherwise `FALSE` |
| Util.CaseInsensitiveIndex | node_modules/sql-tables/src/util.ts:261-276 | the position of the first key equal to the probe ignoring case, or -1 when there is none |
| Util.FindFoldSticks | node_modules/sql-tables/src/util.ts:261-276 | once the accumulator is truthy, the reduce returns it unchanged |
| Util.FindFoldSpec | node_modules/sql-tables/src/util.ts:261-276 | of `Util.FindFold`: from a falsy accumulator, the reduce gives the first matching key's truthy value; with none, the last entry decides |
| Util.FindCaseInsensitiveSpec | node_modules/sql-tables/src/util.ts:261-276 | of `Util.FindCaseInsensitivePropInObj`: `findCaseInsensitivePropInObj` gives the value of the first key, in key order, that equals the probe ignoring case and holds a truthy value. When no such key exists, the result is the last entry's value if its key matches, and `false` otherwise |
| Util.FindCaseInsensitiveExact | node_modules/sql-tables/src/util.ts:261-276 | a key holding a truthy value is always found, with a truthy value |
| Util.FalsyValuePassedOver | node_modules/sql-tables/src/util.ts:261-276 | `{a: 0, A: 5}` probed with `a` gives 5: the falsy first match is passed over |
| Util.FalsyValueReset | node_modules/sql-tables/src/util.ts:261-276 | `{a: 0, b: 1}` probed with `a` gives `false`: the later key resets the falsy match |
| Util.FindCaseInsensitiveObjectSpec | node_modules/sql-tables/src/util.ts:261-276 | of `Util.FindCaseInsensitiveObject`: on an object of objects (tables, columns), the value of the first key equal to the probe ignoring case, and `false` exactly when no key matches |
| Util.AugmentedIfNewSpec | node_modules/sql-tables/src/util.ts:286-293 | of `Util.AugmentedIfNew`: `augmentObjIfNew` leaves the object unchanged when the key holds a truthy value. Otherwise it sets the key to the item; no other key changes |
| Util.MutableDict.constructor | node_modules/sql-tables/src/util.ts:286-293 | the object starts out holding the given entries |
| Util.MutableDict.AugmentIfNew | node_modules/sql-tables/src/util.ts:286-293 | updates the object in place as `AugmentedIfNew` says and returns the same object |
| Util.Filter | node_modules/sql-tables/src/schema/maintainers/maintainers.ts:83-88 | a filter never grows its input, and every element it keeps passes |
| Util.FilterMembers | node_modules/sql-tables/src/schema/maintainers/maintainers.ts:83-88 | an element is kept exactly when it is in the input and passes |
| Util.FilterAppend | node_modules/sql-tables/src/schema/maintainers/maintainers.ts:83-88 | filtering keeps the order: it distributes over concatenation |
| Util.FilterPartition | node_modules/sql-tables/src/schema/maintainers/maintainers.ts:83-88 | a filter and its complement split the input, as multisets |
| Util.FilterKeeps | node_modules/sql-tables/src/schema/maintainers/fixer-functions.ts:130-135 | `.filter(Boolean)` keeps a list of non-empty strings whole, as it does the composite constraint texts |
| Schema.TypeName | node_modules/sql-tables/src/schema/schema.ts:4-24 | every type tag is written as a non-empty string |
| Schema.ParseTypeName | node_modules/sql-tables/src/schema/schema.ts:4-24 | reading a tag's name back gives the tag |
| Schema.ParseTypeInverse | node_modules/sql-tables/src/schema/schema.ts:4-24 | a string read as a tag is that tag's name |
| Schema.TypeNameInjective | node_modules/sql-tables/src/schema/schema.ts:4-24 | distinct tags have distinct names |
| Schema.ConstraintName | node_modules/sql-tables/src/schema/schema.ts:26-35 | every constraint is written as a non-empty string |
| Schema.PropOfType | node_modules/sql-tables/src/schema/schema.ts:48-55 | the prop of a bare tag has that type, no constraints and no relation |
| SchemaGuards.HasConstraintSpec | node_modules/sql-tables/src/schema/schema-guards.ts:80-98 | of `SchemaGuards.HasConstraint`: `hasConstraint(c, p)` holds exactly when `c` is listed, or `c` is NotNull and PrimaryKey is listed; it is false when the list is missing or empty |
| SchemaGuards.HasConstraintsSome | node_modules/sql-tables/src/schema/schema-guards.ts:69-78 | `hasConstraints` holds exactly for a full prop on which some constraint is present |
| SchemaGuards.HasDbOnlyConstraintsSpec | node_modules/sql-tables/src/schema/schema-guards.ts:101-108 | of `SchemaGuards.HasDbOnlyConstraints`: `hasDbOnlyConstraints` holds exactly when DbModifyOnly or DbInternal is listed |
| SchemaGuards.IsSchemaTypeSpec | node_modules/sql-tables/src/schema/schema-guards.ts:14-37 | of `SchemaGuards.IsSchemaType`: `isSchemaType` accepts exactly the 15 written tags. `isSchemaNumeric` accepts exactly the 11 numeric ones and `isSchemaNonNumeric` the 4 others |
| SchemaGuards.IsSchemaTypeName | node_modules/sql-tables/src/schema/schema-guards.ts:110-116 | every tag's name passes `isSchemaType`, and `isSchemaNumeric` exactly for the numeric tags |
| SchemaGuards.IsSchemaStructFn | node_modules/sql-tables/src/schema/schema-guards.ts:39-58 | the `for…in` loop with its flag and `break` answers whether every own value satisfies `fn`; a non-object gives false and an empty object gives true |
| SchemaGuards.IsSchemaRelationComposite | node_modules/sql-tables/src/schema/schema-guards.ts:136-156 | null and undefined throw. Otherwise the answer is true exactly when `props` and `propsForeign` are arrays of equal length and `struct` is a string |
| SchemaGuards.StrList | node_modules/sql-tables/src/schema/schema-guards.ts:139-151 | a list of names is an array of the same length |
| SchemaGuards.StructToAny | node_modules/sql-tables/src/schema/schema-guards.ts:39-67 | a struct is an object with one field per column |
| SchemaGuards.ItemIsProp | node_modules/sql-tables/src/schema/schema-guards.ts:118-127 | `isSchemaStructProp` recognises exactly the full props, and every struct item passes `isSchemaStructItem` |
| SchemaGuards.StructIsSchemaStruct | node_modules/sql-tables/src/schema/schema-guards.ts:61-63 | every typed struct passes `isSchemaStruct` |
| SchemaGuards.StructIsStrict | node_modules/sql-tables/src/schema/schema-guards.ts:65-67 | a struct passes `isSchemaStructStrict` exactly when none of its columns is a bare tag |
| SchemaGuards.CompositeGuard | node_modules/sql-tables/src/schema/schema-guards.ts:136-156 | a composite key passes exactly when its two lists have equal length |
| TypeMappings.IndexOfGeneric | node_modules/sql-tables/src/schema/type-mappings.ts:20-82 | the position of each generic's entry in `typeMappings`, whose generic is that type, or -1 |
| TypeMappings.GenericKeysDistinct | node_modules/sql-tables/src/schema/type-mappings.ts:20-82 | no two entries of `typeMappings` share a generic |
| TypeMappings.ByGenericDerived | node_modules/sql-tables/src/schema/type-mappings.ts:86-87 | the written-out by-generic index is exactly `arrToObj(typeMappings, 'generic')`: one entry per generic, in table order |
| TypeMappings.GroupOf | node_modules/sql-tables/src/schema/type-mappings.ts:84-85 | the by-infoSchema group of each entry is keyed by that entry's `infoSchema` and lists it |
| TypeMappings.InfoSchemaKeysPairwise | node_modules/sql-tables/src/schema/type-mappings.ts:84-85 | the by-infoSchema index holds each SQL type name once |
| TypeMappings.GroupIndicesSpec | node_modules/sql-tables/src/schema/type-mappings.ts:84-85 | of `TypeMappings.GroupIndices`: an entry is in a group exactly when that group is its own, and the group lists entries in table order |
| TypeMappings.GroupMembers | node_modules/sql-tables/src/schema/type-mappings.ts:84-85 | a group holds exactly the entries with its SQL type name, in table order |
| TypeMappings.InfoSchemaGroupDerived | node_modules/sql-tables/src/schema/type-mappings.ts:84-85 | each written-out group is what `arrToObj(typeMappings, 'infoSchema', true)` builds for its key |
| TypeMappings.InfoSchemaMissingDerived | node_modules/sql-tables/src/schema/type-mappings.ts:84-85 | an SQL type name that no entry uses has no group in the derived index |
| TypeMappings.ByInfoSchemaDerived | node_modules/sql-tables/src/schema/type-mappings.ts:84-85 | the written-out by-infoSchema index answers every lookup as `arrToObj(typeMappings, 'infoSchema', true)` does. So bigint lists [Int64, UInt64], integer [Int32, UInt32], smallint [Int16, UInt16], and each other SQL type one generic |
| TypeMappings.MappingForIndex | node_modules/sql-tables/src/schema/type-mappings.ts:86-87 | each generic finds its own entry; Int8, UInt8, Decimal, Date and TimestampMs find none |
| TypeMappings.MappingForSpec | node_modules/sql-tables/src/schema/type-mappings.ts:86-87 | of `TypeMappings.MappingFor`: a type has a mapping exactly when it is one of the ten mapped generics, and that mapping is a table entry for the same generic |
| TypeMappings.MappingTs | node_modules/sql-tables/src/schema/type-mappings.ts:20-82 | the TypeScript name of a mapped generic is `boolean` for Boolean, `string` for String and Ipv4, and `number` otherwise |
| TypeMappings.OnlyStringHasEmptyCreate | node_modules/sql-tables/src/schema/type-mappings.ts:45-51 | String is the only mapping with an empty `create`, and its `createA` is `varchar` |
| TypeMappings.GroupGenerics | node_modules/sql-tables/src/schema/type-mappings.ts:84-85 | the generics under a group's key are its entries' generics, in order |
| TypeMappings.UnmappedInfoSchema | node_modules/sql-tables/src/schema/type-mappings.ts:84-85 | an SQL type name no entry uses (`varchar`, say) has no group |
| TypeMappings.PosInGroup | node_modules/sql-tables/src/schema/type-mappings.ts:84-85 | where each entry sits inside its group |
| TypeMappings.InfoSchemaRoundTrip | node_modules/sql-tables/src/schema/type-mappings.ts:20-85 | round trip: every entry's generic is listed under its own `infoSchema` name |
| TypeMappings.ConstraintsByGenericDerived | node_modules/sql-tables/src/schema/type-mappings.ts:109-110 | the written-out constraint index is exactly `arrToObj(constraintMappings, 'generic')` |
| TypeMappings.IndexOfConstraint | node_modules/sql-tables/src/schema/type-mappings.ts:89-107 | the position of each mapped constraint's entry, or -1 |
| TypeMappings.ConstraintMappingIndex | node_modules/sql-tables/src/schema/type-mappings.ts:109-110 | each mapped constraint finds its own entry and the others find none |
| TypeMappings.ConstraintMappingSpec | node_modules/sql-tables/src/schema/type-mappings.ts:89-110 | of `TypeMappings.ConstraintMappingFor`: exactly Check, NotNull, PrimaryKey and Unique are mapped. NotNull, PrimaryKey and Unique carry their SQL text, and Check an empty `create` with `createA` CHECK |
| TypeMappings.IndexOfAutomatic | node_modules/sql-tables/src/schema/type-mappings.ts:112-118 | the position of each type's `automatics` entry, or -1 |
| TypeMappings.AutomaticIndex | node_modules/sql-tables/src/schema/type-mappings.ts:112-118 | each lookup in `automatics` finds that type's own entry or nothing |
| TypeMappings.AutomaticAbsent | node_modules/sql-tables/src/schema/type-mappings.ts:112-118 | a type without an automatic form has no entry |
| TypeMappings.AutomaticsSpec | node_modules/sql-tables/src/schema/type-mappings.ts:112-118 | of `TypeMappings.AutomaticFor`: Int32 and UInt32 give `serial PRIMARY KEY`, Int64 and UInt64 `bigserial PRIMARY KEY`, TimestampS `timestamp default current_timestamp`, and nothing else has an entry |
| TypeMappings.AppOnlySpec | node_modules/sql-tables/src/schema/type-mappings.ts:120-126 | of `TypeMappings.AppOnlyMappings`: `appOnlyMappings` lists exactly Automatic, DbModifyOnly, DbInternal, EncryptAppLayer and EncryptDbLayer |
| TypeConverters.ToGeneral | node_modules/sql-tables/src/type-converters.ts:29-46 | `toGeneral` has an entry for every type except Boolean, Date and Decimal |
| TypeConverters.ToSql | node_modules/sql-tables/src/type-converters.ts:52-54 | `toSql` has an entry for Boolean only |
| TypeConverters.ToJs | node_modules/sql-tables/src/type-converters.ts:48-50 | `toJs` has an entry for Boolean only |
| TypeConverters.SignedClamp | node_modules/sql-tables/src/type-converters.ts:30-32 | Int8, Int16 and Int32 clamp to [-2^(n-1), 2^(n-1)-1]. The result is an integer exactly when `parseInt` is, and values inside the range pass through |
| TypeConverters.UnsignedClamp | node_modules/sql-tables/src/type-converters.ts:37-39 | UInt8, UInt16 and UInt32 clamp to [0, 2^n-1], with the same integer and pass-through guarantees |
| TypeConverters.PowersOfTwo | node_modules/sql-tables/src/type-converters.ts:30-39 | the widths give the literal bounds of the table (128, 256, 32768, 65536, 2147483648, 4294967296) |
| TypeConverters.UInt8Saturates | node_modules/sql-tables/src/type-converters.ts:37 | UInt8 saturates at both ends: 300 becomes 255, -5 becomes 0, and values in range stay |
| TypeConverters.UInt64Clamp | node_modules/sql-tables/src/type-converters.ts:41 | UInt64 is clamped only below, at 0 |
| TypeConverters.ParseOnly | node_modules/sql-tables/src/type-converters.ts:33-45 | Int64, TimestampMs and TimestampS are only parsed, never clamped |
| TypeConverters.StringForms | node_modules/sql-tables/src/type-converters.ts:35-43 | String and Ipv4 convert to their string form |
| TypeConverters.BooleanCasts | node_modules/sql-tables/src/type-converters.ts:48-54 | `toSql.Boolean` writes `TRUE` for a truthy value and `FALSE` otherwise; `toJs.Boolean` is the identity |
| Sql.ForeignKeyComposite | node_modules/sql-tables/src/schema/queries/sql.ts:81-89 | `foreignKeyComposite` throws its mismatch message exactly when the column and reference lists differ in length |
| Sql.CreateTableTrimmed | node_modules/sql-tables/src/schema/queries/sql.ts:63-64 | the column list of `CREATE TABLE` has no white space at either end |
| Sql.CreateTableUntrimmed | node_modules/sql-tables/src/schema/queries/sql.ts:63-64 | a column list without white space at its ends is written `CREATE TABLE name (` + list + `);` unchanged |
| Sql.NullStatements | node_modules/sql-tables/src/schema/queries/sql.ts:95-103 | `setNull` and `setNotNull` both start with `ALTER TABLE t ALTER COLUMN c`, and they are never the same text |
| Sql.AlterStatements | node_modules/sql-tables/src/schema/queries/sql.ts:91-103 | `addColumn`, `setNull` and `setNotNull` all start with `ALTER TABLE t` |
| Sql.Spaced | node_modules/sql-tables/src/schema/queries/sql.ts:76-79 | each part carries the blank that follows the comma of `, ` |
| Sql.SpacedJoin | node_modules/sql-tables/src/schema/queries/sql.ts:76-79 | a `, `-joined list is the parts joined at commas, each preceded by its blank |
| Sql.ColumnListSplit | node_modules/sql-tables/src/schema/queries/sql.ts:76-79 | a `, `-joined column list reads back at its commas (first name, then each other name behind its blank) when no name holds a comma |
| FixerSchema.StrictifyItemStruct | node_modules/sql-tables/src/schema/maintainers/fixer-functions.ts:317-330 | both table branches give the strictified columns; a prop-only struct is its own strict form |
| FixerSchema.StrictifyStrict | node_modules/sql-tables/src/schema/maintainers/fixer-functions.ts:318-320 | an already strict table comes back unchanged |
| FixerSchema.StrictifySchemaStrict | node_modules/sql-tables/src/schema/maintainers/fixer-functions.ts:332-341 | an already strict schema comes back unchanged |
| FixerSchema.StrictifyIdempotent | node_modules/sql-tables/src/schema/maintainers/fixer-functions.ts:332-341 | `strictify` is idempotent |
| FixerSchema.StrictifyNames | node_modules/sql-tables/src/schema/maintainers/fixer-functions.ts:304-341 | table names, their order and every table's column names are kept |
| FixerSchema.StrictifyItemShape | node_modules/sql-tables/src/schema/maintainers/fixer-functions.ts:317-330 | every column lookup in the result answers with the strictified item. A table keeps its composite keys, and a bare column map is wrapped as `{struct: ...}` with none |
| FixerSchema.StrictifyGet | node_modules/sql-tables/src/schema/maintainers/fixer-functions.ts:304-315 | a column lookup in the strictified struct is the strictified lookup |
| FixerSchema.StrictifyGuards | node_modules/sql-tables/src/schema/maintainers/fixer-functions.ts:317-330 | the run-time guards pick the branch the typed model takes: a table passes `isSchemaProp`, and then `isSchemaStructStrict` exactly when no column is a bare tag. A bare column map without a column named `struct` fails `isSchemaProp` |
| FixerSchema.AugmentWithGet | node_modules/sql-tables/src/schema/maintainers/fixer-functions.ts:346-349 | an existing column is kept; a missing one takes the first entry of `s` with its name |
| FixerSchema.AugmentWithKeys | node_modules/sql-tables/src/schema/maintainers/fixer-functions.ts:349 | the existing columns keep their places |
| FixerSchema.AugmentSchemaSpec | node_modules/sql-tables/src/schema/maintainers/fixer-functions.ts:343-352 | of `FixerSchema.AugmentSchema`: every table ends up with every column of `s`, and the columns it had are untouched. Table names and composite keys are unchanged |
| FixerSchema.MutableSchema.constructor | node_modules/sql-tables/src/schema/maintainers/fixer-functions.ts:343-352 | the schema object starts out as the given schema |
| FixerSchema.MutableSchema.MutateStructIntoSchemaStructs | node_modules/sql-tables/src/schema/maintainers/fixer-functions.ts:343-352 | changes every table's column map in place as `AugmentSchema` says and returns the same schema object |
| FixerColumns.IsConstraintFoldSpec | node_modules/sql-tables/src/schema/maintainers/fixer-functions.ts:205-209 | of `FixerColumns.IsConstraintFold`: the `reduce` of `isConstraint` ends true exactly when it started true or the constraint is in the list |
| FixerColumns.IsConstraintSpec | node_modules/sql-tables/src/schema/maintainers/fixer-functions.ts:201-213 | of `FixerColumns.IsConstraint`: `isConstraint` is plain membership in the listed constraints (false when the list is missing or empty) |
| FixerColumns.AutomaticColumnSpec | node_modules/sql-tables/src/schema/maintainers/fixer-functions.ts:71-77 | of `FixerColumns.CreateAutomaticColumnNameType`: an automatic column is `name serial PRIMARY KEY` for Int32/UInt32, `name bigserial PRIMARY KEY` for Int64/UInt64, and `name timestamp default current_timestamp` for TimestampS. Any other type gives `''` |
| FixerColumns.ConstraintTextSpec | node_modules/sql-tables/src/schema/maintainers/fixer-functions.ts:167-179 | of `FixerColumns.ConstraintText`: one constraint adds `NOT NULL `, `PRIMARY KEY ` or `UNIQUE `. App-only constraints and Check, whose `create` is empty, add nothing |
| FixerColumns.FoldAppendConcat | node_modules/sql-tables/src/schema/maintainers/fixer-functions.ts:166-179 | the string `reduce` is the start text followed by each element's text in list order |
| FixerColumns.ConcatMapAppend | node_modules/sql-tables/src/schema/maintainers/fixer-functions.ts:166-179 | the texts of two lists are the texts of the first followed by those of the second |
| FixerColumns.ConstraintTextsSkip | node_modules/sql-tables/src/schema/maintainers/fixer-functions.ts:168-176 | a list with none of NotNull, PrimaryKey and Unique writes nothing |
| FixerColumns.CreateConstraintsSpec | node_modules/sql-tables/src/schema/maintainers/fixer-functions.ts:164-183 | of `FixerColumns.CreateConstraints`: `createConstraints` writes the text of every listed constraint in list order, and `''` without constraints |
| FixerColumns.CreateConstraintsSnoc | node_modules/sql-tables/src/schema/maintainers/fixer-functions.ts:164-183 | a constraint added at the end of the list adds its text at the end |
| FixerColumns.CreateReferencesSpec | node_modules/sql-tables/src/schema/maintainers/fixer-functions.ts:185-191 | of `FixerColumns.CreateReferences`: a relation gives `REFERENCES t (k)` (the `trim` changes nothing), no relation gives `''` |
| FixerColumns.CreateDefaultSpec | node_modules/sql-tables/src/schema/maintainers/fixer-functions.ts:193-199 | of `FixerColumns.CreateDefault`: a default is written, as `DEFAULT ...`, exactly when it is truthy |
| FixerColumns.CreateColumnFromPropSpec | node_modules/sql-tables/src/schema/maintainers/fixer-functions.ts:79-111 | of `FixerColumns.CreateColumnFromProp`: the four cases of a column definition. An Automatic column uses `automatics`, and an unmapped type gives `''`. A mapped non-empty `create` gives `name create constraints references` without DEFAULT. String gives `name varchar(typeMax or 255) constraints references default` |
| FixerColumns.CreateColumnFromPropEmpty | node_modules/sql-tables/src/schema/maintainers/fixer-functions.ts:79-111 | a column text is empty exactly when its type has no automatic form (for an Automatic column) or no mapping (otherwise) |
| FixerColumns.CreateColumn | node_modules/sql-tables/src/schema/maintainers/fixer-functions.ts:53-59 | `createColumn` starts with `ALTER TABLE t ADD COLUMN` and ends with the column definition |
| FixerColumns.SetColumnNullConstraintSpec | node_modules/sql-tables/src/schema/maintainers/fixer-functions.ts:61-69 | of `FixerColumns.SetColumnNullConstraint`: SET NOT NULL is chosen exactly when NotNull or PrimaryKey is listed, DROP NOT NULL otherwise |
| FixerColumns.CreateCompositeUnique | node_modules/sql-tables/src/schema/maintainers/fixer-functions.ts:138-143 | every composite UNIQUE text is non-empty |
| FixerColumns.ForeignKeyTexts | node_modules/sql-tables/src/schema/maintainers/fixer-functions.ts:145-155 | when no entry throws, there is one non-empty FOREIGN KEY text per entry |
| FixerColumns.ForeignKeyTextsSpec | node_modules/sql-tables/src/schema/maintainers/fixer-functions.ts:145-155 | of `FixerColumns.ForeignKeyTexts`: the composite foreign keys throw the mismatch message exactly when some entry pairs lists of different lengths; otherwise entry k gives `foreignKeyComposite` of entry k |
| FixerColumns.CreateCompositeConstraintsSpec | node_modules/sql-tables/src/schema/maintainers/fixer-functions.ts:130-162 | of `FixerColumns.CreateCompositeConstraints`: the composite constraints are the uniques, then the foreign keys, then the primary key when one is declared. Nothing else is dropped, and the only failure is a foreign key whose two column lists differ in length |
| FixerColumns.MapSeqAppend | node_modules/sql-tables/src/schema/maintainers/fixer-functions.ts:116-125 | `map` distributes over concatenation |
| FixerColumns.ColumnTextsAppend | node_modules/sql-tables/src/schema/maintainers/fixer-functions.ts:116-125 | columns are listed in column order |
| FixerColumns.ColumnTextsMembers | node_modules/sql-tables/src/schema/maintainers/fixer-functions.ts:116-125 | a text is listed exactly when it is the non-empty trimmed definition of some column |
| FixerColumns.CreateTableFromStructSpec | node_modules/sql-tables/src/schema/maintainers/fixer-functions.ts:113-128 | of `FixerColumns.CreateTableFromStruct`: `createTableFromStruct` throws exactly on a mismatched composite foreign key. Otherwise it is `CREATE TABLE` of the non-empty column texts followed by the composite constraints, and no listed item is empty |
| FixerColumns.AllNonEmptyAppend | node_modules/sql-tables/src/schema/maintainers/fixer-functions.ts:116-127 | two lists without empty strings concatenate to one |
| Dependencies.VisitTable | node_modules/sql-tables/src/schema/maintainers/fixer-functions.ts:241-266 | visiting a table only ever adds to the checked set |
| Dependencies.FewerUnchecked | node_modules/sql-tables/src/schema/maintainers/fixer-functions.ts:241-266 | marking a schema table checked strictly shrinks the set of unchecked tables, so the walk ends |
| Dependencies.KeysPrefix | node_modules/sql-tables/src/schema/maintainers/fixer-functions.ts:258-261 | a result that only grows keeps every table it has placed |
| Dependencies.VisitItems | node_modules/sql-tables/src/schema/maintainers/fixer-functions.ts:268-291 | walking a table's columns only ever adds to the checked set |
| Dependencies.PushGood | node_modules/sql-tables/src/schema/maintainers/fixer-functions.ts:248-250 | pushing an unchecked table that the last ancestor references keeps the walk invariant: the ancestors form a path, the result is ordered and holds distinct, checked tables |
| Dependencies.PopGood | node_modules/sql-tables/src/schema/maintainers/fixer-functions.ts:257-262 | appending a finished table whose targets are all placed, and popping it, keeps the invariant |
| Dependencies.PopKeys | node_modules/sql-tables/src/schema/maintainers/fixer-functions.ts:258-261 | appending a fresh table keeps the result's keys distinct |
| Dependencies.PopOrdered | node_modules/sql-tables/src/schema/maintainers/fixer-functions.ts:258-261 | a table whose referenced tables are all placed may follow them |
| Dependencies.VisitTableGood | node_modules/sql-tables/src/schema/maintainers/fixer-functions.ts:241-266 | the visit of one table keeps the invariant, leaves the ancestors as they were, only appends to the result and places the table. Or it fails soundly: a circular error names an edge that closes a cycle, an unresolved one a referenced table the schema lacks |
| Dependencies.FinishTable | node_modules/sql-tables/src/schema/maintainers/fixer-functions.ts:252-264 | the step after a table's columns are walked: the same guarantees as `VisitTableGood` |
| Dependencies.VisitItemsGood | node_modules/sql-tables/src/schema/maintainers/fixer-functions.ts:268-291 | the column walk keeps the invariant and places every referenced table, or fails soundly. A target on the ancestor stack, a self-reference included, throws `circular dependency found: A -> B`; a target missing from the schema throws `unable to resolve` |
| Dependencies.AncestorCycle | node_modules/sql-tables/src/schema/maintainers/fixer-functions.ts:279-282 | an ancestor named by an edge from the last ancestor closes a cycle |
| Dependencies.NextColumn | node_modules/sql-tables/src/schema/maintainers/fixer-functions.ts:271-289 | a column is placed once its target, if it has one, is in the result; a column without a relation is skipped |
| Dependencies.PlacedPrefix | node_modules/sql-tables/src/schema/maintainers/fixer-functions.ts:283 | placements survive a longer result |
| Dependencies.WalkGood | node_modules/sql-tables/src/schema/maintainers/fixer-functions.ts:229-235 | the fold over all tables keeps the invariant and, on success, places every schema table, or fails soundly |
| Dependencies.KeysSoFar | node_modules/sql-tables/src/schema/maintainers/fixer-functions.ts:229-235 | the tables placed so far stay placed |
| Dependencies.OrderDependenciesSpec | node_modules/sql-tables/src/schema/maintainers/fixer-functions.ts:229-291 | of `Dependencies.OrderDependencies`: on success every schema table is listed exactly once, with its own definition, after every table one of its columns references. A circular error names an edge that closes a cycle; an unresolved one names a referenced table the schema does not have. Composite `foreignKey` entries are not edges |
| Dependencies.OrderedAcyclic | node_modules/sql-tables/src/schema/maintainers/fixer-functions.ts:229-291 | a schema that gets an order has no cycle |
| Dependencies.EdgeBefore | node_modules/sql-tables/src/schema/maintainers/fixer-functions.ts:283-288 | in an ordered result the target of an edge sits before its source |
| Dependencies.PathDescends | node_modules/sql-tables/src/schema/maintainers/fixer-functions.ts:283-288 | along a path of references, positions in an ordered result strictly decrease |
| Dependencies.DependencyWalker.constructor | node_modules/sql-tables/src/schema/maintainers/fixer-functions.ts:230-234 | a fresh state object: empty result, nothing checked, no ancestors |
| Dependencies.DependencyWalker.SchemaIterator | node_modules/sql-tables/src/schema/maintainers/fixer-functions.ts:241-291 | the in-place `schemaIterator`, with its nested `createStructIterator` visits, leaves the object in the state `VisitTable` computes, or returns the exception it throws |
| Dependencies.OrderDependenciesInPlace | node_modules/sql-tables/src/schema/maintainers/fixer-functions.ts:229-235 | `orderDependencies` run on one mutable state object returns exactly what the functional `OrderDependencies` returns |
| CheckersTypes.CompareNullConstraintsSpec | node_modules/sql-tables/src/schema/maintainers/checkers-types.ts:25-51 | of `CheckersTypes.CompareNullConstraints`: a difference is reported exactly when the database's nullability and the declared `NotNull` disagree, named after the column, with reason `Constraint` and the text `db: NULL code: NOT NULL` or `db: NOT NULL code: NULL` |
| CheckersTypes.MatchFoldSpec | node_modules/sql-tables/src/schema/maintainers/checkers-types.ts:58-66 | of `CheckersTypes.MatchFold`: the reduce is true exactly when it started true or some mapping's generic is the declared type |
| CheckersTypes.CompareTypesSpec | node_modules/sql-tables/src/schema/maintainers/checkers-types.ts:53-85 | of `CheckersTypes.CompareTypes`: a data type without mappings is `NotInCode`; a mapped one whose generics lack the declared type is a `TypeMismatch` with `db: <data_type> code: <type>`; otherwise the null constraints decide |
| CheckersTypes.CompareTypesRoundTrip | node_modules/sql-tables/src/schema/maintainers/checkers-types.ts:56-77 | a column of the data type a mapping names only ever fails on its null constraint |
| CheckersTypes.CreateColumnNameSplit | node_modules/sql-tables/src/schema/maintainers/checkers-types.ts:158-160 | `table.column` splits back into its two parts at the dot when neither holds a dot |
| CheckersTypes.TypeCheckColumnSpec | node_modules/sql-tables/src/schema/maintainers/checkers-types.ts:136-156 | of `CheckersTypes.TypeCheckColumn`: the container is named `table.column`; it holds an error exactly when the type comparison reports one, and that error is the comparison's, renamed `table.column` |
| CheckersTypes.FindRelationSpec | node_modules/sql-tables/src/schema/maintainers/checkers-types.ts:117-134 | of `CheckersTypes.FindRelation`: the empty text comes back exactly when the related table exists, has the column, and the column has the relation's type |
| CheckersTypes.RelationMessagesDistinct | node_modules/sql-tables/src/schema/maintainers/checkers-types.ts:128-133 | the three failure messages (no table, no column, wrong type) differ from one another |
| CheckersTypes.ColumnErrors | node_modules/sql-tables/src/schema/maintainers/checkers-types.ts:101-115 | the failing relation messages of a table's columns are never empty |
| CheckersTypes.RelationErrors | node_modules/sql-tables/src/schema/maintainers/checkers-types.ts:87-92 | the failing relation messages of every table are never empty |
| CheckersTypes.AbsorbAppend | node_modules/sql-tables/src/schema/maintainers/checkers-types.ts:87-115 | folding two lists of messages is folding the first and then the second |
| CheckersTypes.StructFoldAbsorb | node_modules/sql-tables/src/schema/maintainers/checkers-types.ts:101-115 | the column reducer is the step applied to the table's failing relation messages, in column order |
| CheckersTypes.SchemaFoldAbsorb | node_modules/sql-tables/src/schema/maintainers/checkers-types.ts:87-99 | the schema reducer is the step applied to all failing relation messages, table by table |
| CheckersTypes.AbsorbCount | node_modules/sql-tables/src/schema/maintainers/checkers-types.ts:106-109 | each failing message adds one to the count |
| CheckersTypes.KeepLastText | node_modules/sql-tables/src/schema/maintainers/checkers-types.ts:108 | as written, only the last message survives, behind a line break when an earlier text or an earlier message exists |
| CheckersTypes.AppendText | node_modules/sql-tables/src/schema/maintainers/checkers-types.ts:108 | as intended, each message is kept, one per line, after the earlier text |
| CheckersTypes.JoinedText | node_modules/sql-tables/src/schema/maintainers/checkers-types.ts:108 | as intended, from an empty state the text is the messages joined by line breaks |
| CheckersTypes.ValidateSchemaRelationsAsWrittenSpec | node_modules/sql-tables/src/schema/maintainers/checkers-types.ts:94-115 | of `CheckersTypes.ValidateSchemaRelationsAsWritten`: as written, the result is empty exactly when every relation holds. Otherwise it is the one failing message, or a line break and the last one when several fail |
| CheckersTypes.ValidateSchemaRelationsSpec | node_modules/sql-tables/src/schema/maintainers/checkers-types.ts:94-115 | of `CheckersTypes.ValidateSchemaRelations`: corrected: the result is every failing message, one per line, in table and column order, and it is empty exactly when every relation holds |
| CheckersTypes.RelationCount | node_modules/sql-tables/src/schema/maintainers/checkers-types.ts:106-107 | the count is the number of failing relations, whichever step is used |
| CheckersTypes.TwoBrokenStrict | node_modules/sql-tables/src/schema/maintainers/checkers-types.ts:95 | the strictified two-relation example schema |
| CheckersTypes.TwoBrokenErrors | node_modules/sql-tables/src/schema/maintainers/checkers-types.ts:117-134 | in that example both relations fail, and the message about `B` comes first |
| CheckersTypes.LostRelationMessage | node_modules/sql-tables/src/schema/maintainers/checkers-types.ts:108 | as written, the message about `B` is lost: the result is a line break and the message about `C` |
| CheckersTypes.KeptRelationMessages | node_modules/sql-tables/src/schema/maintainers/checkers-types.ts:94-115 | corrected, both messages are kept, in order |
| CheckerFunctions.InLowerCasedSpec | node_modules/sql-tables/src/schema/maintainers/checker-functions.ts:100-102 | of `CheckerFunctions.InLowerCased`: a name is in the lower-cased list exactly when some name equals it ignoring case |
| CheckerFunctions.ListTableNames | node_modules/sql-tables/src/schema/maintainers/checker-functions.ts:35-41 | at most one name per row, and no name is empty |
| CheckerFunctions.ListTableNamesMembers | node_modules/sql-tables/src/schema/maintainers/checker-functions.ts:35-41 | exactly the rows' non-empty table names are listed |
| CheckerFunctions.ListTableNamesAppend | node_modules/sql-tables/src/schema/maintainers/checker-functions.ts:35-41 | the names keep the row order |
| CheckerFunctions.CheckForTableInCodeSpec | node_modules/sql-tables/src/schema/maintainers/checker-functions.ts:99-121 | of `CheckerFunctions.CheckForTableInCode`: the container is named after the live table; it holds `not in code` exactly when no schema table has that name ignoring case, which is exactly when the case-insensitive lookup fails |
| CheckerFunctions.ReducePieces | node_modules/sql-tables/src/schema/maintainers/checker-functions.ts:127-136 | the concatenating reduce is the start state followed by the steps' pieces |
| CheckerFunctions.PiecesAppend | node_modules/sql-tables/src/schema/maintainers/checker-functions.ts:127-136 | the pieces of two lists are the pieces of each, in order |
| CheckerFunctions.PiecesMembers | node_modules/sql-tables/src/schema/maintainers/checker-functions.ts:127-136 | a validation is among the pieces exactly when some step produced it |
| CheckerFunctions.CheckForTableInDbSpec | node_modules/sql-tables/src/schema/maintainers/checker-functions.ts:123-137 | of `CheckerFunctions.CheckForTableInDb`: one `not in db` per schema table that no live name matches ignoring case, and nothing else |
| CheckerFunctions.CheckForTableInDbAppend | node_modules/sql-tables/src/schema/maintainers/checker-functions.ts:123-137 | the validations follow the schema's table order |
| CheckerFunctions.ColumnsInDbPieces | node_modules/sql-tables/src/schema/maintainers/checker-functions.ts:154-161 | the nested reducers are the running state followed by each table's missing columns |
| CheckerFunctions.CheckForColumnInDbSpec | node_modules/sql-tables/src/schema/maintainers/checker-functions.ts:139-167 | of `CheckerFunctions.CheckForColumnInDb`: one `not in db` named `table.column` per schema column that no live `table.column` matches ignoring case, and nothing else |
| CheckerFunctions.ErrorsOf | node_modules/sql-tables/src/schema/maintainers/checker-functions.ts:173-175 | no more errors than containers |
| CheckerFunctions.NamesOf | node_modules/sql-tables/src/schema/maintainers/checker-functions.ts:176 | one name per container |
| CheckerFunctions.NamesOfIndex | node_modules/sql-tables/src/schema/maintainers/checker-functions.ts:176 | the k-th name is the k-th container's |
| CheckerFunctions.FlattenFoldErrors | node_modules/sql-tables/src/schema/maintainers/checker-functions.ts:172-178 | the reduce appends exactly the set errors, in order |
| CheckerFunctions.FlattenFoldNames | node_modules/sql-tables/src/schema/maintainers/checker-functions.ts:172-178 | the reduce appends every name, in order |
| CheckerFunctions.ErrorsOfMembers | node_modules/sql-tables/src/schema/maintainers/checker-functions.ts:173-175 | an error is collected exactly when some container holds it |
| CheckerFunctions.ErrorsOfAppend | node_modules/sql-tables/src/schema/maintainers/checker-functions.ts:172-178 | the collected errors keep the container order |
| CheckerFunctions.FlattenSpec | node_modules/sql-tables/src/schema/maintainers/checker-functions.ts:169-179 | of `CheckerFunctions.FlattenSchemaValidationContainers`: every name in order and exactly the set errors in order; no containers give the empty collection |
| CheckerFunctions.FindColumnInSchemaSpec | node_modules/sql-tables/src/schema/maintainers/checker-functions.ts:53-64 | of `CheckerFunctions.FindColumnInSchema`: nothing when no table matches ignoring case; otherwise the first matching column of the first matching table, or nothing when that table has no such column |
| CheckerFunctions.InfoSchemaToValidationContainerSpec | node_modules/sql-tables/src/schema/maintainers/checker-functions.ts:66-81 | of `CheckerFunctions.InfoSchemaToValidationContainer`: the container is named `table.column`; an unknown column is `not in code`, a known one yields the type check of its declared property |
| CheckerFunctions.KnownTableColumns | node_modules/sql-tables/src/schema/maintainers/checker-functions.ts:88-94 | the kept live columns belong to tables the schema knows ignoring case |
| CheckerFunctions.KnownTableColumnsMembers | node_modules/sql-tables/src/schema/maintainers/checker-functions.ts:88-94 | a live column is kept exactly when the schema knows its table ignoring case |
| CheckerFunctions.ValidateTablesSpec | node_modules/sql-tables/src/schema/maintainers/checker-functions.ts:195-202 | of `CheckerFunctions.ValidateTables`: the names are the listed live names. An error is a live name no schema table matches ignoring case, or a schema table no live name matches ignoring case, and nothing else |
| CheckerFunctions.ValidateColumnsSpec | node_modules/sql-tables/src/schema/maintainers/checker-functions.ts:181-193 | of `CheckerFunctions.ValidateColumns`: the result is, in order: the schema columns no live column matches ignoring case, the live columns' errors, and the table errors it was given |
| Maintainers.MapFixesSpec | node_modules/sql-tables/src/schema/maintainers/maintainers.ts:83-85 | of `Maintainers.MapFixes`: the map of a throwing mapper succeeds exactly when every element's mapping does, with one result per element in order; otherwise it throws the first element's exception |
| Maintainers.FilterAsWrittenSpec | node_modules/sql-tables/src/schema/maintainers/maintainers.ts:34-47 | of `Maintainers.FilterSchemaByTableValidationsAsWritten`: as written, a table is kept exactly when its lower-cased name is NOT among the live names |
| Maintainers.FilterSchemaSpec | node_modules/sql-tables/src/schema/maintainers/maintainers.ts:34-47 | of `Maintainers.FilterSchemaByTableValidations`: corrected, a table is kept exactly when its lower-cased name is among the live names |
| Maintainers.LiveErrorKinds | node_modules/sql-tables/src/schema/maintainers/checker-functions.ts:66-81 | a live column's error is `not in code` or a type difference, never a column missing from the database |
| Maintainers.LiveErrorsNotMissing | node_modules/sql-tables/src/schema/maintainers/checker-functions.ts:83-97 | no live column's error is a column `not in db` |
| Maintainers.ValidateDatabaseColumnsSpec | node_modules/sql-tables/src/schema/maintainers/maintainers.ts:23-32 | of `Maintainers.ValidateDatabase`: corrected, the only missing-column reports are columns, of tables the database has, that no live `table.column` matches |
| Maintainers.OrdersChecks | node_modules/sql-tables/src/schema/maintainers/maintainers.ts:23-32 | with no live tables, the one-table example schema gets its table, and its column, reported missing |
| Maintainers.NoLiveColumns | node_modules/sql-tables/src/schema/maintainers/checker-functions.ts:83-97 | with no live columns nothing is live and no check of a live column reports |
| Maintainers.MissingTableColumnsAsWritten | node_modules/sql-tables/src/schema/maintainers/maintainers.ts:41 | as written, a table missing from the database also has its column reported missing, before the table |
| Maintainers.MissingTableColumnsCorrected | node_modules/sql-tables/src/schema/maintainers/maintainers.ts:23-47 | corrected, only the missing table is reported |
| Maintainers.GenerateFixesSpec | node_modules/sql-tables/src/schema/maintainers/maintainers.ts:76-94 | of `Maintainers.GenerateFixes`: the plan fails exactly when the fix of a kept validation does. Otherwise it has one fix per kept validation, in order, and leaves over exactly the rejected validations; the two split the validations |
| Maintainers.LeftOverSpec | node_modules/sql-tables/src/schema/maintainers/maintainers.ts:87-88 | what is left over is exactly what the filter rejects |
| Maintainers.SplitNameOfColumnName | node_modules/sql-tables/src/schema/maintainers/maintainers.ts:98 | a `table.column` name splits back into its table and its column |
| Maintainers.MappersOfDeclaredColumn | node_modules/sql-tables/src/schema/maintainers/maintainers.ts:96-132 | for a validation named after a declared column (the first match ignoring case), both mappers alter that column with its own declared property |
| Maintainers.MappersThrow | node_modules/sql-tables/src/schema/maintainers/maintainers.ts:96-132 | a name without a dot, or a table the schema lacks, makes both mappers throw |
| Maintainers.NotNullFilterSpec | node_modules/sql-tables/src/schema/maintainers/maintainers.ts:134-153 | of `Maintainers.NotNullFilter`: each flag admits the null-constraint difference of its own direction, and nothing is admitted without a flag |
| Maintainers.DefaultNotNullFilter | node_modules/sql-tables/src/schema/maintainers/maintainers.ts:245-249 | the default controls admit only a column the database holds NOT NULL and the code declares nullable |
| Maintainers.AddColumnsSpec | node_modules/sql-tables/src/schema/maintainers/maintainers.ts:165-170 | of `Maintainers.AddColumns`: exactly the column `not in db` validations become ADD COLUMN fixes, in order; the rest is left over |
| Maintainers.AddNotNullSpec | node_modules/sql-tables/src/schema/maintainers/maintainers.ts:155-163 | of `Maintainers.AddNotNull`: exactly the admitted null differences become null-constraint fixes, in order; the rest is left over |
| Maintainers.TablesToCreateSpec | node_modules/sql-tables/src/schema/maintainers/maintainers.ts:172-184 | of `Maintainers.TablesToCreate`: the tables to create are the non-empty names of the table `not in db` validations |
| Maintainers.FilterOrdered | node_modules/sql-tables/src/schema/maintainers/maintainers.ts:61-63 | cutting a dependency order down to some tables keeps each kept table after the kept tables it references |
| Maintainers.FilterUnique | node_modules/sql-tables/src/schema/maintainers/maintainers.ts:61-63 | a filter keeps keys unique |
| Maintainers.OrderedSchemaFromValidationsSpec | node_modules/sql-tables/src/schema/maintainers/maintainers.ts:54-64 | of `Maintainers.OrderedSchemaFromValidations`: it throws exactly when the whole schema cannot be ordered. Otherwise each table named by a table `not in db` validation appears once, with its own struct, after the listed tables it references |
| Maintainers.CreateTableFixSpec | node_modules/sql-tables/src/schema/maintainers/maintainers.ts:206-207 | of `Maintainers.CreateTableFix`: a CREATE TABLE fix succeeds exactly when the table has no composite key mismatch, with the text `createTableFromStruct` gives |
| Maintainers.CreateTablesSpec | node_modules/sql-tables/src/schema/maintainers/maintainers.ts:201-208 | of `Maintainers.CreateTables`: one CREATE TABLE per ordered table, in order; it throws, with a composite key error, exactly when one of them mismatches |
| Maintainers.AddTablesFixes | node_modules/sql-tables/src/schema/maintainers/maintainers.ts:179-211 | `addTables` fails when ordering fails or a CREATE TABLE does, and its fixes are the CREATE TABLEs |
| Maintainers.AddTablesLeftOver | node_modules/sql-tables/src/schema/maintainers/maintainers.ts:186-199 | table validations and validations on a table being created are dropped; every other validation is left over |
| Maintainers.FixValidationsSpec | node_modules/sql-tables/src/schema/maintainers/maintainers.ts:213-240 | of `Maintainers.FixValidations`: without `additive` nothing is fixed and everything is left over. With it, what is left over is exactly what no step handles, and the fixes run tables first, then columns, then null constraints |
| Maintainers.DefaultFixesLeaveNoMissingColumn | node_modules/sql-tables/src/schema/maintainers/maintainers.ts:242-259 | with the default controls no missing table or column, and no column the database holds NOT NULL against the code, is left over |
| Table.Numbers | node_modules/sql-tables/src/table.ts:197 | n numbers, the k-th being first + k |
| Table.NumbersConcat | node_modules/sql-tables/src/table.ts:212-215 | consecutive runs of placeholder numbers join into one run |
| Table.UpdateNumberingAsWritten | node_modules/sql-tables/src/table.ts:213-215 | as written, the first WHERE placeholder repeats the last SET one, the numbering has a gap or repeat, and `$(k + m)` is never used |
| Table.UpdateNumbering | node_modules/sql-tables/src/table.ts:209-216 | corrected, SET and WHERE together number `$1..$(k + m)`, each once |
| Table.DeleteNumbering | node_modules/sql-tables/src/table.ts:218-224 | as written, the first id is bound to `$0` and the last number is never used; corrected, the ids are bound to `$1..$m` |
| Table.SelectWhereNumbering | node_modules/sql-tables/src/table.ts:195-199 | the WHERE of a select numbers its columns `$1..$n` |
| Table.SelectAllColumns | node_modules/sql-tables/src/table.ts:226-232 | no column listed is `SELECT *`; listed columns appear in order after `SELECT ` |
| Table.Groups | node_modules/sql-tables/src/table.ts:478-496 | the placeholder numbers cut into at least one row, the last row non-empty |
| Table.Params | node_modules/sql-tables/src/table.ts:479-494 | one placeholder per number of a row |
| Table.RowTexts | node_modules/sql-tables/src/table.ts:479-494 | one text per row |
| Table.FlattenStart | node_modules/sql-tables/src/table.ts:489 | opening a row with x appends x to the numbers |
| Table.FlattenExtend | node_modules/sql-tables/src/table.ts:491-494 | extending the last row with x appends x to the numbers |
| Table.GroupsFlatten | node_modules/sql-tables/src/table.ts:478-496 | the rows hold the numbers 1..n in order |
| Table.GroupsSizes | node_modules/sql-tables/src/table.ts:486-489 | without a chunk size there is one row; otherwise every row but the last has `chunkSize` numbers and the last `(n - 1) % chunkSize + 1` |
| Table.RowsFull | node_modules/sql-tables/src/table.ts:201-207 | when n is a multiple of the chunk size, every row is full |
| Table.RowsClose | node_modules/sql-tables/src/table.ts:478-496 | a row list is its open form followed by `)` |
| Table.SingleParam | node_modules/sql-tables/src/table.ts:483 | the row of one value is its placeholder |
| Table.OpenRowsNew | node_modules/sql-tables/src/table.ts:489 | opening a row appends `), ($x` |
| Table.ParamListSnoc | node_modules/sql-tables/src/table.ts:494 | extending a row appends `, $x` |
| Table.OpenRowsExtendFirst | node_modules/sql-tables/src/table.ts:494 | extending the only open row appends `, $x` |
| Table.OpenRowsExtendLater | node_modules/sql-tables/src/table.ts:494 | extending a later open row appends `, $x` |
| Table.OpenRowsExtend | node_modules/sql-tables/src/table.ts:494 | extending the open row appends `, $x` |
| Table.FoldStartsRow | node_modules/sql-tables/src/table.ts:488-489 | corrected, a value that opens a row appends `), ($k`, closed when it is the last |
| Table.FoldStartsRowAsWritten | node_modules/sql-tables/src/table.ts:488-489 | as written, a value that opens a row appends `), ($k`, even when it is the last |
| Table.FoldExtendsRow | node_modules/sql-tables/src/table.ts:490-494 | corrected, a value that extends a row appends `, $k`, closed when it is the last |
| Table.FoldExtendsRowAsWritten | node_modules/sql-tables/src/table.ts:490-494 | as written, a value that extends a row appends `, $k`, closed when it is the last |
| Table.GroupsStep | node_modules/sql-tables/src/table.ts:486-494 | one more value opens a row when the chunk size divides its index, and extends the last row otherwise |
| Table.ParamFoldOpen | node_modules/sql-tables/src/table.ts:478-496 | before the last value both folds hold the rows so far, the last still open |
| Table.LastStepStarts | node_modules/sql-tables/src/table.ts:488-489 | a last value that opens a row: corrected, the rows are closed; as written, the last is left open |
| Table.LastStepExtends | node_modules/sql-tables/src/table.ts:490-491 | a last value that extends a row: both folds close the rows |
| Table.LastStep | node_modules/sql-tables/src/table.ts:482-496 | the last value closes the rows, except as written when it opens a row |
| Table.ParamFoldRows | node_modules/sql-tables/src/table.ts:201-207 | of `Table.ParamFold`: corrected, the VALUES list is the rows of `chunkSize` placeholders each, every one parenthesised, in order, separated by `, ` |
| Table.ParamFoldAsWrittenRows | node_modules/sql-tables/src/table.ts:478-496 | of `Table.ParamFoldAsWritten`: as written, the last row is left open exactly when it holds one value of several (`(n - 1) % chunkSize == 0`, `n >= 2`); otherwise the list is the same as corrected |
| Table.SmallParams | node_modules/sql-tables/src/table.ts:480 | placeholders are `$` and the decimal number |
| Table.InsertOneValue | node_modules/sql-tables/src/table.ts:201-207 | one column and one value give `INSERT INTO users (name) VALUES ($1)` |
| Table.InsertTwoColumns | node_modules/sql-tables/src/table.ts:478-496 | two columns and two values give the row `($1, $2)` |
| Table.InsertTwoRows | node_modules/sql-tables/src/table.ts:488-489 | one column and two values: as written `($1), ($2`, corrected `($1), ($2)` |
| Table.UpdateExampleAsWritten | node_modules/sql-tables/src/table.ts:209-216 | as written, one SET column and one id are both bound to `$1` |
| Table.UpdateExample | node_modules/sql-tables/src/table.ts:209-216 | corrected, the id is bound to `$2` |
| Table.DeleteExample | node_modules/sql-tables/src/table.ts:218-224 | one id: as written bound to `$0`, corrected to `$1` |
| Table.PropSchemaToSqlStrings | node_modules/sql-tables/src/table.ts:138-151 | of `Table.PropSchemaToSql`: a string, address or boolean column is written as a string prefix of its text, whole unless `typeMax` is truthy, and no longer than a positive `typeMax`; the correction leaves them as written |
| Table.RawValuePassesThrough | node_modules/sql-tables/src/table.ts:153 | as written, a number column with no declared bounds passes the raw, unconverted value through |
| Table.UInt8Column | node_modules/sql-tables/src/table.ts:153 | 300 in a UInt8 column: as written 300 is sent; corrected, the type's range clamps it to 255, and -5 to 0 |
| Table.PropSchemaToSqlClamps | node_modules/sql-tables/src/table.ts:138-154 | of `Table.PropSchemaToSql`: corrected, a fixed-size integer column with no declared bounds is the type's cast, within the range of the type |
| Table.PropSchemaToSqlBounds | node_modules/sql-tables/src/table.ts:153 | of `Table.PropSchemaToSql`: declared bounds clamp: an integer result lies within them |
| Table.PropToSqlUncast | node_modules/sql-tables/src/table.ts:156-168 | a bare type with no cast (Date, Decimal) becomes `''` |
| Table.WritableIndices | node_modules/sql-tables/src/table.ts:175-186 | the indices kept are indices of the columns |
| Table.WritableIndicesSpec | node_modules/sql-tables/src/table.ts:175-186 | of `Table.WritableIndices`: an index is kept exactly when its column is in the struct without a db-only constraint, and indices stay in order |
| Table.ValidPropValsSpec | node_modules/sql-tables/src/table.ts:172-193 | of `Table.ValidPropVals`: the j-th output pair is the j-th writable column and its own value coerced by that column's prop |
| Table.ValidPropValsReadsColumnsOnly | node_modules/sql-tables/src/table.ts:184 | only the values at the columns' own indices are read |
| Table.ValuesPastColumnsIgnored | node_modules/sql-tables/src/table.ts:175-186 | values past the columns never reach the result |
| Table.ValidatePropValsForInput | node_modules/sql-tables/src/table.ts:172-193 | the pushing reduce returns exactly the writable columns and their coerced values |
| Table.ValidPropValsSkipsUnknown | node_modules/sql-tables/src/table.ts:177-179 | a column the struct does not declare is skipped with its value |
| Table.KeyIndices | node_modules/sql-tables/src/table.ts:398 | the indices kept are below the length |
| Table.KeyIndicesSpec | node_modules/sql-tables/src/table.ts:396-404 | of `Table.KeyIndices`: an index is kept exactly when it is below the length and `keys` lists it, in order |
| Table.ReduceByKeys | node_modules/sql-tables/src/table.ts:396-404 | the pushing reduce returns the elements whose index `keys` lists, in order |
| Table.KeyColumnsAndValues | node_modules/sql-tables/src/table.ts:458-459 | the key columns and key values come from the same indices, so they stay paired |
| Table.IsValidResultSpec | node_modules/sql-tables/src/table.ts:28-30 | of `Table.IsValidResult`: a result is valid exactly when it has rows, an array, holding a row; nothing, a non-array or an empty array is not valid |
| Table.HasQueryErrorFoldSpec | node_modules/sql-tables/src/table.ts:406-418 | of `Table.HasQueryErrorFold`: a found index stays; from -1 the fold gives -1 exactly when every result has a row, otherwise the index of the first empty one |
| Table.FirstErrorSpec | node_modules/sql-tables/src/table.ts:418 | of `Table.FirstError`: the first error is -1 exactly when every result has a row, otherwise the index of the first empty one |
| Table.CompoundResultsSpec | node_modules/sql-tables/src/table.ts:416-428 | of `Table.CompoundResults`: the ids are each result's first row's id exactly when every result has a row; otherwise the exception names the dependent column of the first empty result |
| Table.CompoundExamples | node_modules/sql-tables/src/table.ts:416-428 | an empty second result names `col2`; two single rows give their ids |
| Table.ColsAndValsColumns | node_modules/sql-tables/src/table.ts:293-317 | a column list passes unchanged with its values, or is rejected with the length message. As written it is accepted with fewer values than columns; corrected, only with equal lengths or whole rows of values |
| Table.ColsAndValsMultiples | node_modules/sql-tables/src/table.ts:302 | two columns with four values: rejected as written, accepted corrected; four columns with two values the other way round |
| Table.ColsAndValsObject | node_modules/sql-tables/src/table.ts:308-311 | an object yields its keys and, for each, its value; the given values are ignored |
| Table.GetStruct | node_modules/sql-tables/src/table.ts:132-136 | the struct is found exactly when the table is in the schema; a missing table throws |
| Table.GetStructOf | node_modules/sql-tables/src/table.ts:132-136 | the struct found is that of the table's own entry |
| Table.SelectWhereValidator | node_modules/sql-tables/src/table.ts:234-245 | the lengths are compared first, then the table is looked up |
| Table.SelectWhereSpec | node_modules/sql-tables/src/table.ts:277-291 | of `Table.SelectWhere`: mismatched lengths are rejected and a missing table throws. Otherwise the WHERE binds the writable columns in order, `$1..$n`, to their coerced values |
| Table.GroupsOneRow | node_modules/sql-tables/src/table.ts:486-494 | no more values than the chunk size make one row |
| Table.OneRow | node_modules/sql-tables/src/table.ts:201-207 | as many values as columns make the single row `($1, ..., $n)` |
| Table.InsertAsWrittenSpec | node_modules/sql-tables/src/table.ts:319-346 | of `Table.InsertAsWritten`: as written, `insert` rejects a column list the inverted test refuses and throws on a missing table. Otherwise it writes one row binding the writable columns, `$1..$n`, to their coerced values. Values past the columns never reach the statement; columns past the values are bound to the coercion of `undefined` |
| Table.InsertAsWrittenText | node_modules/sql-tables/src/table.ts:201-207 | as many parameters as columns make the single row `($1, ..., $k)` under the as-written fold |
| Table.GroupsFill | node_modules/sql-tables/src/table.ts:478-496 | a row opened after q full rows fills with consecutive numbers |
| Table.GroupsWhole | node_modules/sql-tables/src/table.ts:478-496 | q times c values cut at the chunk size c are the rows `1..c`, `c+1..2c`, … |
| Table.ValueRowsSpec | node_modules/sql-tables/src/table.ts:293-317 | of `Table.ValueRows`: the rows of values are all the values, in order, each of one value per column when the count is a multiple |
| Table.KeptColumns | node_modules/sql-tables/src/table.ts:172-193 | the columns `validatePropValsForInput` keeps do not depend on the values, and it keeps one value per kept column |
| Table.ColsAndValsWhole | node_modules/sql-tables/src/table.ts:293-317 | the corrected pairing gives no values for no columns, and otherwise a multiple of the column count |
| Table.InsertRowsText | node_modules/sql-tables/src/table.ts:201-207 | q rows of k parameters make the VALUES list of q closed rows numbered `$1..$qk` in order |
| Table.InsertRows | node_modules/sql-tables/src/table.ts:172-207 | a whole number of value rows: all the values, each row coerced and written as a row of its own |
| Table.RowsSnoc | node_modules/sql-tables/src/table.ts:478-496 | one more row is joined to the VALUES list after a comma |
| Table.InsertSpec | node_modules/sql-tables/src/table.ts:319-346 | of `Table.Insert`: corrected `insert` rejects a mismatched column list and throws on a missing table. Otherwise the values, cut into rows of one value per column, are all the values given; each row is coerced on its own and written as a row of its own, the placeholders running `$1..$n` without a gap |
| Table.InsertMismatchedCounts | node_modules/sql-tables/src/table.ts:302 | four columns with two values: accepted as written, the last two bound to `undefined`, and rejected corrected. Two columns with four values: rejected as written, and written as two rows corrected |
| Table.UpdateSpec | node_modules/sql-tables/src/table.ts:348-376 | of `Table.Update`: corrected `update`: it pairs columns and values with the source's own test, so a non-empty column list never takes more values than columns; with one id value per id column, the SET binds the writable columns and the ids follow, with placeholders `$1..$n` for the n parameters |
| Table.UpdateRowsRejected | node_modules/sql-tables/src/table.ts:298-306 | two columns with four values are rejected by `update`, though the row-splitting pairing of the corrected `insert` accepts them |
| Table.UpdateAsWrittenUnbound | node_modules/sql-tables/src/table.ts:348-376 | of `Table.UpdateAsWritten`: as written, the id values never reach the query, and a WHERE placeholder has no parameter once there are two ids or no writable column |
| Table.DeleteFromSpec | node_modules/sql-tables/src/table.ts:378-394 | of `Table.DeleteFrom`: `deleteFrom` fails exactly on a missing table. Corrected, each id placeholder has its value; as written, `$0` has none |
| SchemaToTypeScript.StructPropLine | node_modules/sql-tables/src/schema/schema-to-typescript.ts:10-15 | a mapped column appends its member line `  name: ts;`; an unmapped one throws with its type |
| SchemaToTypeScript.AllMappedCons | node_modules/sql-tables/src/schema/schema-to-typescript.ts:17-24 | a struct is mapped exactly when its first column and the rest are |
| SchemaToTypeScript.FirstUnmappedCons | node_modules/sql-tables/src/schema/schema-to-typescript.ts:17-24 | after a mapped first column, the first unmapped column of the rest is the first unmapped column of the struct |
| SchemaToTypeScript.StructToTypeScriptSpec | node_modules/sql-tables/src/schema/schema-to-typescript.ts:17-24 | of `SchemaToTypeScript.StructToTypeScript`: the fold succeeds exactly when every column is mapped, giving the member lines in column order; otherwise it throws with the type of the first unmapped column |
| SchemaToTypeScript.PropToInterfaceSpec | node_modules/sql-tables/src/schema/schema-to-typescript.ts:17-24 | of `SchemaToTypeScript.PropToInterface`: a table's interface is `export interface name {`, its member lines, `}` and a blank line; or the type of its first unmapped column |
| SchemaToTypeScript.SchemaFoldSpec | node_modules/sql-tables/src/schema/schema-to-typescript.ts:26-28 | of `SchemaToTypeScript.SchemaFold`: the fold over the tables succeeds exactly when every column of every table is mapped, giving the interfaces in key order; otherwise it throws for the first unmapped column of the first such table |
| SchemaToTypeScript.SchemaToTypeScriptSpec | node_modules/sql-tables/src/schema/schema-to-typescript.ts:26-28 | of `SchemaToTypeScript.SchemaToTypeScript`: `schemaToTypeScript` is the interfaces of the tables in key order, or the type of the first column, in the first such table, that has no TypeScript mapping |
| SchemaToTypeScript.EmptySchema | node_modules/sql-tables/src/schema/schema-to-typescript.ts:26-28 | an empty schema gives the empty text |
| SchemaToTypeScript.SchemaTextAppend | node_modules/sql-tables/src/schema/schema-to-typescript.ts:26-28 | appending a table appends its interface |
| SchemaToTypeScript.UnmappedColumnThrows | node_modules/sql-tables/src/schema/schema-to-typescript.ts:10-15 | a UInt8 column has no TypeScript mapping: the generation throws |

## Left out

- Connections and streams of `table.ts`: `getClient`, `getClientFrom`, `createPgQuery`, `createQueryStream`, `createQueryObservable`, `queryStream`, `query`, the `transaction*` functions and `createCrud`. They are I/O. A CRUD call is modelled as the statement (text and parameters) it would hand to `query`.
- The Observable chaining of `insertOrSelectIfExistsObservable` and `compoundInsertOrSelectIfExists`: it only sequences queries. Their pure parts are modelled, namely `reduceByKeys` on the key columns and values, `isValidResult`, `hasQueryError`, and the results reducer.
- `listTables` and `listAllColumns` run queries. The live table rows and `information_schema.columns` rows are parameters.
- `db-connect.ts` (the global pool and environment settings) and the file write of `writeTsFromSchema` are I/O.
- Logging (`sql`, `log`, `warn`, `error`, chalk), `deepFreeze`, `partial`, `noop`, `identity` and `pluck` are runtime mechanics. The warning printed by `propToSql` for an uncast bare type is dropped; its `''` result is kept.
- Objects are modelled as their own keys only, and each schema item as a typed value. Two source behaviours that come from probing plain JavaScript objects are therefore not modelled. They are noted here and not derived in the Dafny.
  - Keys named after `Object.prototype` members. Examples are `toString` and `constructor`. The walk state's `checked: {}` (fixer-functions.ts:232) already holds such a key through the prototype. So `orderDependencies` skips a table named `toString`, and a relation to a missing `constructor` table passes the `!schema[dependsOn]` test (fixer-functions.ts:284). `getStruct(schema, 'constructor')` gives `{}` (table.ts:135). `augmentObjIfNew` also skips a column named `constructor` (util.ts:287). `Dependencies.OrderDependenciesSpec`, `Table.GetStruct` and `FixerSchema.AugmentSchemaSpec` state the own-key behaviour instead.
  - A bare column map with a column named `struct` whose value is a full prop. It passes `isSchemaProp` (schema-guards.ts:130). So `strictifySchemaItem` (fixer-functions.ts:318) and `mutateStructIntoSchemaStructs` (fixer-functions.ts:348) treat that column as the table's column map. The model keeps it as a column; `FixerSchema.StrictifyGuards` excludes exactly this case.
- JavaScript's ordering of integer-like object keys before other keys is not modelled. Every key keeps its insertion order.
- Numbers are mathematical integers. 64-bit floating point precision and non-integral values are not modelled. `parseInt` reads leading white space, a sign and ASCII decimal digits.
- `toLowerCase` is modelled on ASCII only; Unicode case folding is not. `trim` and `parseInt` skip the full ECMAScript WhiteSpace and LineTerminator set (tab, line feed, vertical tab, form feed, carriage return, space, U+00A0, U+1680, U+2000–U+200A, U+2028, U+2029, U+202F, U+205F, U+3000, U+FEFF).
- Table.GetStruct: a missing table is an error outcome (`NoSuchTable`) rather than a precondition, because `schema[tableName].struct` throws a TypeError before any "table not found" test is reached.
- Table.UpdateSpec: stated only for one id value per id column, the use the placeholders are numbered for. A call with another count still builds its statement, as `Update` shows.
- Table.Update: keeps the pairing test of `colsAndValsFromColsOrObject` as written, since an UPDATE sets a single row. Two things follow, as in the source. A column list longer than its values sets the remaining columns from the coercion of `undefined`. An empty column list accepts any values and sets nothing.
- Table.DeleteFromSpec: the corrected binding is stated only for one id value per id column, for the same reason.
- Maintainers.FixValidationsSpec: names the table fixes and the column fixes segment by segment. The null fixes that follow them are described by `AddNotNullSpec` and are not repeated.
- Table.Insert: the corrected `insert` runs the coercion of `validatePropValsForInput` once per row of values. The source makes a single pass, which reads only as many values as there are columns. As written, a multi-row insert never reaches that pass, because the inverted pairing test refuses more values than a non-empty column list.
- `arrToObj`, `zip`, `unzip`, `objFilter` and the `strictify` reduce fill a fresh accumulator that nothing else can see. Each is modelled as a fold on values; no aliasing is lost.

## Findings

| source | as written | input that shows it | evidently intended | confidence | as-written member | corrected member |
|---|---|---|---|---|---|---|
| node_modules/sql-tables/src/table.ts:488-489 | a value whose index the chunk size divides opens a row with `), ($k` and is never closed, even when it is the last value | one column, two values: `($1), ($2` | every row closed: `($1), ($2)` | not executed | Table.ParamFoldAsWrittenRows | Table.ParamFoldRows |
| node_modules/sql-tables/src/table.ts:302 | the pairing test is `cols.length % vals.length`, the inverse of its own message | two columns with four values are rejected; four columns with two values are accepted, and the last two columns are bound to `undefined` | `vals.length % cols.length`: values in whole rows of the columns, each row written as a row of the INSERT | not executed | Table.InsertMismatchedCounts | Table.InsertSpec |
| node_modules/sql-tables/src/table.ts:213-215 | the i-th WHERE id is `$(k + i)` for k SET columns, and only the SET values are passed | SET `a`, id `id`: `UPDATE t SET a = $1 WHERE id = $1` | ids numbered `$(k + i + 1)` with their values passed after the SET values | not executed | Table.UpdateAsWrittenUnbound | Table.UpdateSpec |
| node_modules/sql-tables/src/table.ts:221-223 | the i-th id is `$i`, starting at `$0` | one id: `DELETE FROM t WHERE id = $0` | `$(i + 1)` | not executed | Table.DeleteNumbering | Table.DeleteFromSpec |
| node_modules/sql-tables/src/schema/maintainers/checkers-types.ts:108 | each failing relation replaces the text gathered so far | two columns referencing missing tables `B` and `C`: only the message about `C` is kept | each message appended on its own line | not executed | CheckersTypes.LostRelationMessage | CheckersTypes.KeptRelationMessages |
| node_modules/sql-tables/src/schema/maintainers/maintainers.ts:41 | the schema is cut down to the tables the database does NOT have before their columns are checked | schema table `orders(id)`, empty database: `orders.id` is reported missing as well as `orders` | check the columns of the tables the database has | not executed | Maintainers.MissingTableColumnsAsWritten | Maintainers.MissingTableColumnsCorrected |
| node_modules/sql-tables/src/table.ts:153 | a non-string value is clamped from the raw input, so the type's cast is discarded | 300 for a UInt8 column with no declared bounds is sent as 300 | clamp the converted value: 255 | not executed | Table.RawValuePassesThrough | Table.PropSchemaToSqlClamps |

