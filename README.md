# GeoPackage Extension Mechanism conformance checks, in Dafny

This project models `ExtensionsTests`, the test class of the GeoPackage 1.2
executable test suite that checks the Extension Mechanism of the OGC GeoPackage
Encoding Standard (OGC 12-128r13, clause 2.3). The class does two things, and the
model covers both.

- **Conformance-class gate** (`validateClassEnabled`). The test run's ICS parameter
  is a comma-separated list of conformance classes. Java's `String.split(",")`
  splits it, and the tokens go into a set. The gate passes only when the name of the
  TestNG test is one of those tokens. Otherwise it fails with
  "Conformance class <name> is not enabled". Module `JavaStrings` models
  `String.split` exactly for a one-character delimiter that is not a
  regular-expression metacharacter (such as `,`; characters such as `.` or `|`
  would be read as a pattern by Java):
  - a string without the delimiter gives itself;
  - otherwise the result is every field between delimiters;
  - leading and interior empty fields are kept, trailing ones are dropped.
- **Requirement 58, the definition of `gpkg_extensions`**
  (`extensionsTableDefinition`). The method walks the rows of
  `PRAGMA table_info('gpkg_extensions')` in order. For each of the five required
  columns it checks two things:
  - the declared type is exactly `TEXT`;
  - `notnull` is 0 for `table_name` and `column_name`, and 1 for
    `extension_name`, `definition` and `scope`.

  Each of the five columns then ORs its own bit into `passFlag`. The first failed
  assertion aborts the whole check. Rows with other names are skipped. After the
  loop, the check passes only if all five bits are set; otherwise it reports
  "missing column(s)".

In the model, `ExtensionsTableDefinition` is a method with the source's loop and
if-chain. It is proved equal to a specification function, `TableDefinitionVerdict`,
which is built from a per-column table of requirements. The lemmas below then
state what that verdict means. Diagnostics are tags, not formatted text:
`ColumnDefect(column, DeclaredType | NotNull)` or `MissingColumns`.

Three behaviours of the code are worth stating outright, since a reader of the
standard might expect otherwise; the model follows the code and proves each:
- Every row that has a required name is checked, including a repeated one, so a bad
  repeated row fails the table after a good first one (`DuplicateColumnRechecked`).
- The failure for a missing column is only "missing column(s)"; it does not name
  the column (`MissingColumnsIff`, `MissingColumnFails`).
- The check stops at the first failing row, in row order, rather than combining
  every column's result (`FirstDefectMeaning`, `ColumnDefectIff`).

## Model

| member | source | states |
|---|---|---|
| `ExtensionsTests.ValidateClassEnabled` | src/main/java/org/opengis/cite/gpkg12/extensions/ExtensionsTests.java:52-62 | the gate passes iff the test name is a token of the split ICS string; a failure carries "Conformance class <name> is not enabled" |
| `ExtensionsTests.ClassEnabledIffField` | src/main/java/org/opengis/cite/gpkg12/extensions/ExtensionsTests.java:56-57 | a non-empty test name is enabled iff it occurs in the ICS string as a whole comma-delimited field: exact equality, no trimming, case folding or prefix match |
| `ExtensionsTests.ClassNameWithDelimiterNotEnabled` | src/main/java/org/opengis/cite/gpkg12/extensions/ExtensionsTests.java:56-60 | a test name containing a comma is never enabled and gets the "not enabled" message |
| `ExtensionsTests.EmptyClassName` | src/main/java/org/opengis/cite/gpkg12/extensions/ExtensionsTests.java:56-57 | the empty ICS string enables the empty test name; otherwise the empty name is enabled only if the ICS string has an empty field |
| `ExtensionsTests.ListedClassEnabled` | src/main/java/org/opengis/cite/gpkg12/extensions/ExtensionsTests.java:56-58 | "core,ext" enables "ext" |
| `ExtensionsTests.SpacedClassNotEnabled` | src/main/java/org/opengis/cite/gpkg12/extensions/ExtensionsTests.java:56-60 | "core, ext" does not enable "ext": tokens are not trimmed |
| `ExtensionsTests.LeadingEmptyTokenKept` | src/main/java/org/opengis/cite/gpkg12/extensions/ExtensionsTests.java:56-57 | a leading empty token survives the split, so ",ext" enables the empty name |
| `ExtensionsTests.TrailingEmptyTokenDropped` | src/main/java/org/opengis/cite/gpkg12/extensions/ExtensionsTests.java:56-60 | a trailing empty token is dropped by the split, so "ext," does not enable the empty name |
| `JavaStrings.Split` | src/main/java/org/opengis/cite/gpkg12/extensions/ExtensionsTests.java:56 | without a delimiter the result is the whole string; otherwise it is a prefix of all fields that is empty or ends in a non-empty field, and every field it drops is empty: leading and interior empty fields are kept, only trailing ones are lost |
| `JavaStrings.DropTrailingEmpty` | src/main/java/org/opengis/cite/gpkg12/extensions/ExtensionsTests.java:56 | the result is a prefix of the input, ends in a non-empty string, and everything removed is empty |
| `JavaStrings.SplitNonEmptyFields` | src/main/java/org/opengis/cite/gpkg12/extensions/ExtensionsTests.java:56 | a non-empty token is in the split result iff it is one of all the fields |
| `JavaStrings.SplitAllNoDelimiter` | src/main/java/org/opengis/cite/gpkg12/extensions/ExtensionsTests.java:56 | no field contains the delimiter |
| `JavaStrings.SplitAllFields` | src/main/java/org/opengis/cite/gpkg12/extensions/ExtensionsTests.java:56 | the fields are exactly the maximal delimiter-free substrings bounded by the string's ends or by delimiters |
| `JavaStrings.JoinSplitAll` | src/main/java/org/opengis/cite/gpkg12/extensions/ExtensionsTests.java:56 | joining the fields with the delimiter gives back the string |
| `JavaStrings.SplitAllJoin` | src/main/java/org/opengis/cite/gpkg12/extensions/ExtensionsTests.java:56 | splitting a join of delimiter-free fields gives back those fields |
| `ExtensionsTests.ColumnNamedIff` | src/main/java/org/opengis/cite/gpkg12/extensions/ExtensionsTests.java:100-117 | a row selects a required column iff its name equals that column's name exactly |
| `ExtensionsTests.CheckRow` | src/main/java/org/opengis/cite/gpkg12/extensions/ExtensionsTests.java:100-121 | the loop body's if-chain finds the row's defect from the per-column requirements, and ORs exactly the row's bit into the flag |
| `ExtensionsTests.ExtensionsTableDefinition` | src/main/java/org/opengis/cite/gpkg12/extensions/ExtensionsTests.java:87-124 | the loop over the rows, with its early abort and final mask test, computes the verdict `TableDefinitionVerdict` |
| `ExtensionsTests.RowDefectIff` | src/main/java/org/opengis/cite/gpkg12/extensions/ExtensionsTests.java:101-121 | a row fails iff it names a required column whose type is not exactly "TEXT" or whose notnull differs from the required 0/1; the type is checked first |
| `ExtensionsTests.FirstDefectMeaning` | src/main/java/org/opengis/cite/gpkg12/extensions/ExtensionsTests.java:98-122 | there is no defect iff every row passes; otherwise the reported defect is that of a row before which every row passes |
| `ExtensionsTests.FlagsWithinMask` | src/main/java/org/opengis/cite/gpkg12/extensions/ExtensionsTests.java:96-120 | the pass flag never has a bit outside `flagMask` |
| `ExtensionsTests.FlagsBit` | src/main/java/org/opengis/cite/gpkg12/extensions/ExtensionsTests.java:104-120 | a column's bit is set iff some row names that column |
| `ExtensionsTests.FlagsMeaning` | src/main/java/org/opengis/cite/gpkg12/extensions/ExtensionsTests.java:95-121 | the pass flag records exactly the set of required columns the rows name, and nothing else |
| `ExtensionsTests.MaskFull` | src/main/java/org/opengis/cite/gpkg12/extensions/ExtensionsTests.java:96-123 | `passFlag & flagMask == flagMask` iff each of the five column bits is set |
| `ExtensionsTests.TableDefinitionPassIff` | src/main/java/org/opengis/cite/gpkg12/extensions/ExtensionsTests.java:96-123 | Requirement 58 passes iff no row fails and all five columns occur |
| `ExtensionsTests.MissingColumnsIff` | src/main/java/org/opengis/cite/gpkg12/extensions/ExtensionsTests.java:123 | the verdict is "missing column(s)" iff no row fails and some required column is absent |
| `ExtensionsTests.ColumnDefectIff` | src/main/java/org/opengis/cite/gpkg12/extensions/ExtensionsTests.java:98-122 | a column failure is reported iff some row violates that column's property and every earlier row passes |
| `ExtensionsTests.TypeMismatchReported` | src/main/java/org/opengis/cite/gpkg12/extensions/ExtensionsTests.java:102-118 | a required column whose type is not exactly "TEXT" yields a type failure for that column once the earlier rows pass |
| `ExtensionsTests.NotNullMismatchReported` | src/main/java/org/opengis/cite/gpkg12/extensions/ExtensionsTests.java:103-119 | a "TEXT" column whose notnull is not the required value yields a notnull failure for that column once the earlier rows pass |
| `ExtensionsTests.UnknownRowIgnored` | src/main/java/org/opengis/cite/gpkg12/extensions/ExtensionsTests.java:98-121 | removing a row with any other name, from any position, changes neither the first defect, the flag nor the verdict |
| `ExtensionsTests.FlagsGrow` | src/main/java/org/opengis/cite/gpkg12/extensions/ExtensionsTests.java:104-120 | the pass flag only grows: every bit set after a prefix of the rows stays set |
| `ExtensionsTests.RepeatedColumnNoEffect` | src/main/java/org/opengis/cite/gpkg12/extensions/ExtensionsTests.java:104-120 | a column seen again sets its bit again with no effect |
| `ExtensionsTests.StandardTablePasses` | src/main/java/org/opengis/cite/gpkg12/extensions/ExtensionsTests.java:98-123 | the table as the standard defines it passes, with or without an extra column |
| `ExtensionsTests.NullableExtensionNameFails` | src/main/java/org/opengis/cite/gpkg12/extensions/ExtensionsTests.java:111 | a nullable extension_name fails with a notnull failure for extension_name |
| `ExtensionsTests.OtherTypeNamesFail` | src/main/java/org/opengis/cite/gpkg12/extensions/ExtensionsTests.java:102-118 | "VARCHAR" and lower-case "text" both fail the type check |
| `ExtensionsTests.MissingColumnFails` | src/main/java/org/opengis/cite/gpkg12/extensions/ExtensionsTests.java:123 | a table without `scope`, and a table without any columns, fail with "missing column(s)" |
| `ExtensionsTests.DuplicateColumnRechecked` | src/main/java/org/opengis/cite/gpkg12/extensions/ExtensionsTests.java:98-121 | a second `table_name` row with the wrong type fails the table even after a correct first one |

## Left out

- `validateTableExists` (ExtensionsTests.java:64-67): table existence is a query to the database through `DatabaseUtility`, which is not part of this model.
- The JDBC statement, `executeQuery` and `ResultSet` iteration: the model takes the rows of `PRAGMA table_info` as an input sequence. A `NULL` type, which makes `getString` return null, is not modelled, since a declared type is always a string here.
- TestNG plumbing: the ICS parameter and the test name are plain inputs. A missing ICS parameter, which makes Java throw a NullPointerException, is not modelled. The model also leaves out how TestNG skips a class's tests after its `@BeforeTest` fails.
- `ErrorMessage.format` and `ErrorMessageKeys` are not part of this model, so diagnostics are tags. Lines 114 and 119 pass the bare strings "definition type" and "scope notnull" instead of a formatted message; the tags do not capture this difference.
- The integration harness `VerifyTestNGController.java` is left out. It does XML, properties and file I/O and runs the whole suite.
- The pass flag is an 8-bit vector rather than Java's 32-bit `int`. Only its low five bits are ever set (`FlagsWithinMask`), so no value is lost.
