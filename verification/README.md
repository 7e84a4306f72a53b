# Financial dashboard: CSV upload pipeline and read-side post-processing

A Dafny model of the server core of a Next.js financial dashboard.

**The upload route (`POST /api/upload`).** It receives a CSV of transactions and normalises the header names. It rejects the file when the parser reports errors or when there are no data rows. It then walks the rows in file order, numbering them `i + 2`. A row whose non-empty `transaction_no` was already seen in the file becomes a duplicate error. Every other row is checked against a fixed six-field schema, and all of its field errors are joined into one message. If any row failed, nothing is written and every message is returned. Otherwise all rows are inserted in one all-or-nothing `createMany`. A unique-key violation (`P2002`) becomes a single "Database Conflict" answer.

**Three read-side steps:**
- the age-group bucketing of grouped `(age, count)` pairs;
- the Monday..Sunday fill of the day-of-week heatmap;
- the transactions listing: `skip`, `totalPages`, the search OR-predicate and the INCOME/EXPENSE filter, modelled as a pure filter over an in-memory list.

Modules, one per file:

- `Wrappers` (wrappers.dfy): `Option` and `Result`.
- `Text` (text.dfy): ECMAScript `trim`, `toLowerCase`, `contains`, decimal rendering of row numbers, `join`.
- `CsvHeader` (header.dfy): `transformHeader` and how a parsed record becomes a row keyed by normalised headers.
- `TransactionSchema` (schema.dfy): the zod `transactionSchema`, with its issues and their messages in schema order.
- `Upload` (upload.dfy): the validation loop with its seen-set, the rendered error strings, the atomic insert, and the response of `POST`.
- `AgeGroups` (agegroups.dfy), `Heatmap` (heatmap.dfy), `Listing` (listing.dfy): the read-side routes.

How the model follows the code:

- `Date.parse` is the parameter `Env.dateParses`.
- JavaScript's `Number(string)` is the parameter `Env.toNumber`. It returns NaN, a finite real, or ±Infinity, so zod's `coerce.number` behaves as written: NaN fails the type check, while Infinity passes it and fails the age bounds.
- The parser's output is a value: its error list, the raw header cells and the data records.
- Storage is the sequence of stored transactions.
- Any database error other than the unique-key violation is the boolean parameter `fault`.

Points where the route's behaviour is easy to misread. The messages and cases below assume zod 3.23 or later:

- A row whose age is not a number (a missing or non-numeric cell) gets zod's default message `age: Expected number, received nan`, not the range message. The range message "Age must be between 18 and 90" is reserved for numbers outside 18..90, including ±Infinity.
- A missing `transaction_no`, `date` or `full_name` cell gets zod's `Required`. An empty one gets the schema's custom message. A missing gender gets the gender message.
- The row number in an error is the data index + 2. When the parser skips blank lines, this is not the physical line of the file.
- A rejected row's schema issues form one string, `Row n: field: message, field: message`, rather than one entry per issue.
- The seen-set takes a transaction number before the schema check runs. A later row repeating the number of an invalid row is therefore still reported as a duplicate.

## Model

| member | source | states |
|---|---|---|
| Text.Trim | src/app/api/upload/route.ts:38-39 | the result has no leading or trailing ECMAScript whitespace, and is the input with a whitespace prefix and a whitespace suffix removed |
| Text.TrimIdempotent | src/app/api/upload/route.ts:38-39 | trimming an already-trimmed string leaves it unchanged |
| Text.TrimmedCoreUnique | src/app/api/upload/route.ts:38-39 | a string has only one trimmed core with whitespace around it |
| Text.TrimOfCore | src/app/api/upload/route.ts:38-39 | any trimmed core with whitespace around it is what Trim returns |
| Text.TrimSurrounded | src/app/api/upload/route.ts:38-39 | Trim ignores whitespace added around its input |
| Text.Lower | src/app/api/upload/route.ts:39 | same length; each character lower-cased on its own; no upper-case letter left |
| Text.LowerIdempotent | src/app/api/upload/route.ts:39 | lower-casing twice is lower-casing once |
| Text.LowerTrimCommute | src/app/api/upload/route.ts:39 | lower-casing then trimming equals trimming then lower-casing |
| Text.LowerChar | src/app/api/upload/route.ts:39 | the result is never an upper-case letter; an upper-case letter maps to its lower-case partner and every other character is kept; whitespace status is preserved |
| Text.Contains | src/app/api/transactions/route.ts:20-21 | true exactly when the needle occurs at some position of the haystack |
| Text.ContainsInsensitive | src/app/api/transactions/route.ts:20-21 | true exactly when the lower-cased needle occurs in the lower-cased haystack |
| Text.NatToString | src/app/api/upload/route.ts:64-80 | the rendered row number is a non-empty string of decimal digits with no leading zero |
| Text.NatToStringRoundTrip | src/app/api/upload/route.ts:64-80 | reading the rendered digits back gives the number |
| Text.NatToStringInjective | src/app/api/upload/route.ts:64-80 | different row numbers render differently |
| Text.Join | src/app/api/upload/route.ts:77-79 | joining no parts gives the empty string, joining one part gives that part without a separator, and every part occurs in the result |
| CsvHeader.NormalizeHeader | src/app/api/upload/route.ts:38-39 | the result is the raw header's trimmed core, character by character lower-cased, with every space turned into `_`; so it has no spaces, no upper-case letters and no surrounding whitespace, and is never longer than the raw header |
| CsvHeader.NormalizeFixesNormal | src/app/api/upload/route.ts:38-39 | a header already in normal form is left unchanged |
| CsvHeader.NormalizeIdempotent | src/app/api/upload/route.ts:38-39 | normalising twice equals normalising once |
| CsvHeader.HeaderVariant | src/app/api/upload/route.ts:38-39 | the spreadsheet heading "Transaction No" becomes the schema key `transaction_no` |
| CsvHeader.BuildRow | src/app/api/upload/route.ts:35-40 | a row's keys are exactly the normalised headers that have a cell |
| CsvHeader.BuildRowValue | src/app/api/upload/route.ts:35-40 | a key takes the cell under its last occurrence among the headers |
| CsvHeader.EquivalentHeadersSameRows | src/app/api/upload/route.ts:38-52 | header lists with equal normalisations give equal rows for any records |
| CsvHeader.NormalizeIgnoresSurroundingWhitespace | src/app/api/upload/route.ts:38-39 | whitespace added before or after a header does not change its name |
| CsvHeader.NormalizeOfLower | src/app/api/upload/route.ts:38-39 | a header and its lower-cased spelling have the same name |
| CsvHeader.NormalizeIgnoresCase | src/app/api/upload/route.ts:38-39 | headers that differ only in the case of ASCII letters have the same name |
| CsvHeader.NormalizeSpaceAsUnderscore | src/app/api/upload/route.ts:38-39 | inside a header, a space and an underscore give the same name |
| CsvHeader.ReplaceSpaces | src/app/api/upload/route.ts:39 | same length, no space left; every space became `_` and every other character is kept |
| TransactionSchema.FieldsByRank | src/app/api/upload/route.ts:7-21 | the six fields have distinct positions in schema order |
| TransactionSchema.NonEmptyIssue | src/app/api/upload/route.ts:8-12 | a string field passes exactly when it is present and non-empty; absent gives "Required", empty gives the field's own message |
| TransactionSchema.DateIssue | src/app/api/upload/route.ts:9-11 | the date passes exactly when it is present and parses as a date; a present string that does not parse gives "Invalid date format" |
| TransactionSchema.AgeIssue | src/app/api/upload/route.ts:13-16 | the age passes exactly when its coercion is a finite number in 18..90; NaN gives the type message, and every other failure gives "Age must be between 18 and 90" |
| TransactionSchema.AgeBoundaries | src/app/api/upload/route.ts:15-16 | 18 and 90 pass; 17 and 91 fail with the same range message |
| TransactionSchema.ParseGender | src/app/api/upload/route.ts:17-19 | gender is accepted exactly when it is "Male", "Female" or "Other", and the accepted value names the input |
| TransactionSchema.GenderRoundTrip | src/app/api/upload/route.ts:17-19 | every gender value's name parses back to that value |
| TransactionSchema.AmountIssue | src/app/api/upload/route.ts:20 | the amount passes exactly when its coercion is not NaN (Infinity included); otherwise the message is "Amount must be a number" |
| TransactionSchema.Coerce | src/app/api/upload/route.ts:13-20 | a missing cell coerces to NaN (`Number(undefined)`); a present one to `Number(cell)` |
| TransactionSchema.FieldIssue | src/app/api/upload/route.ts:7-21 | each field passes exactly under its own rule: number and name present and non-empty, date present and parseable, age a finite 18..90, gender one of the three names, amount not NaN; a failing gender gets the gender message |
| TransactionSchema.CollectIssues | src/app/api/upload/route.ts:75-79 | never more issues than there are fields below the cut-off |
| TransactionSchema.CollectedInOrder | src/app/api/upload/route.ts:75-79 | collected issues appear in schema key order, and only for fields before the cut-off |
| TransactionSchema.CollectedMessages | src/app/api/upload/route.ts:77-78 | each collected issue carries its field's own message |
| TransactionSchema.CollectedComplete | src/app/api/upload/route.ts:75-79 | every field that fails is among the collected issues |
| TransactionSchema.Reports | src/app/api/upload/route.ts:7-21 | the per-field verdicts are indexed by schema position |
| TransactionSchema.RowIssues | src/app/api/upload/route.ts:75-79 | a row's issues are in schema order, carry each field's message, and name exactly the failing fields |
| TransactionSchema.Output | src/app/api/upload/route.ts:75-82 | a row passing every rule yields the transaction its cells describe, and that transaction satisfies every rule |
| TransactionSchema.CheckRow | src/app/api/upload/route.ts:75-83 | `safeParse` succeeds exactly when every field passes, and then yields the row's transaction; on failure the issues are non-empty, in schema order, name exactly the failing fields and carry their messages |
| Upload.DigitPrefixOfDigits | src/app/api/upload/route.ts:80 | the digit run at the start of "digits + non-digit tail" is exactly those digits |
| Upload.LineOfShape | src/app/api/upload/route.ts:69-80 | any `Row <digits>: ...` message reads back the number those digits denote |
| Upload.Reason | src/app/api/upload/route.ts:68-80 | a duplicate's message holds the repeated number; a schema failure's message holds every `field: message` of its issues |
| Upload.Render | src/app/api/upload/route.ts:68-80 | every rendered row error starts with `Row <n>:`, its row number reads back from the text, and it ends with the reason |
| Upload.KeyOf | src/app/api/upload/route.ts:67-73 | the `transaction_no` test is truthy exactly when the cell is present and non-empty, and then it is that cell |
| Upload.SeenStep | src/app/api/upload/route.ts:67-73 | the seen-set after a row is the set before it plus that row's non-empty number, whether the row was valid or not |
| Upload.OutcomeAt | src/app/api/upload/route.ts:62-84 | a rejected row is reported under row number i + 2 |
| Upload.OutcomesPartition | src/app/api/upload/route.ts:62-84 | every row lands on exactly one side: accepted plus rejected equals the number of rows |
| Upload.FailuresInFileOrder | src/app/api/upload/route.ts:62-84 | failure row numbers lie in 2..n+1 and strictly increase, so there is at most one failure per row and they come in file order |
| Upload.FailureReported | src/app/api/upload/route.ts:62-84 | a rejected row's failure is in the error list; no failure names an accepted row's number |
| Upload.AllAcceptedInOrder | src/app/api/upload/route.ts:62-91 | the error list is empty exactly when every row is accepted, and then the valid rows are the rows' outputs in file order |
| Upload.FoldStep | src/app/api/upload/route.ts:62-84 | each row extends exactly one of the two lists |
| Upload.OutcomesNumbered | src/app/api/upload/route.ts:64 | every rejection is numbered by its position + 2 |
| Upload.AcceptedKey | src/app/api/upload/route.ts:67-75 | an accepted row has a non-empty transaction number that no earlier row carried |
| Upload.AcceptedDistinct | src/app/api/upload/route.ts:59-83 | the accepted transactions have pairwise distinct numbers, all in the seen-set |
| Upload.DuplicateShortCircuit | src/app/api/upload/route.ts:67-73 | a row repeating the non-empty number of any earlier row, valid or invalid, gets exactly one duplicate failure and no schema issues |
| Upload.ValidationSummary | src/app/api/upload/route.ts:57-84 | valid plus failed equals the number of rows, valid numbers are distinct, and failures are in file order |
| Upload.ValidateRow | src/app/api/upload/route.ts:63-83 | one pass of the loop body moves the seen-set, the valid rows and the errors from row i to row i + 1 of the row-by-row definition |
| Upload.ValidateRows | src/app/api/upload/route.ts:57-84 | the loop returns exactly the accepted transactions and the failures of the row-by-row definition; the counts add up to the number of rows, valid numbers are distinct, and failures are in file order |
| Upload.RenderParseError | src/app/api/upload/route.ts:46 | `Line <n>: <message>`: the row number reads back when the parser gave one, `undefined` otherwise, and the parser's message is kept at the end |
| Upload.RowsOf | src/app/api/upload/route.ts:35-52 | one row per parsed record |
| Upload.CreateMany | src/app/api/upload/route.ts:94-116 | the insert succeeds exactly when there is no other fault and the batch repeats no number, neither internally nor from storage; then the whole batch is appended in order after the old rows, and stored numbers stay distinct; otherwise nothing is written |
| Upload.AcceptedAppended | src/app/api/upload/route.ts:94-109 | appending the valid rows of a clean file puts row i's schema output at position i of the new rows |
| Upload.ReportComplete | src/app/api/upload/route.ts:86-91 | every rejected row's message is among the details, and there are details exactly when some row is rejected |
| Upload.FreshUnlessStored | src/app/api/upload/route.ts:94-126 | for a clean file, the unique index admits the batch exactly when storage holds none of its numbers |
| Upload.StoredKeyBlocks | src/app/api/upload/route.ts:105-116 | a stored number carried by an accepted row is in the batch |
| Upload.NoStoredKey | src/app/api/upload/route.ts:105-107 | when no accepted row's number is stored, no batch number is stored |
| Upload.CommitBatch | src/app/api/upload/route.ts:93-131 | a clean file is inserted with count = rows when nothing conflicts; a stored number gives the single conflict message; any other fault gives an internal error; storage is unchanged unless processed |
| Upload.Post | src/app/api/upload/route.ts:23-133 | no file, parse errors (each rendered `Line n: message`), an empty file, validation failure (one message per rejected row, none missing), success, conflict and internal error each arise exactly under their condition; a validation failure's details are exactly the rendered failures in file order; storage changes only on success, where every row is appended in file order |
| AgeGroups.BucketOf | src/app/api/analytics/age-groups/route.ts:30-34 | the else-if chain picks no bucket exactly below 18, and otherwise a bucket whose range holds the age |
| AgeGroups.BucketOfIsRange | src/app/api/analytics/age-groups/route.ts:30-34 | the else-if chain picks bucket k exactly when the age is in k's range; ages below 18 fall in none |
| AgeGroups.BucketBoundaries | src/app/api/analytics/age-groups/route.ts:30-34 | 17 → none; 18 and 25 → 18-25; 26 and 35 → 26-35; 36 and 45 → 36-45; 46 and 60 → 46-60; 61 → 60+ |
| AgeGroups.AddItem | src/app/api/analytics/age-groups/route.ts:26-35 | an item adds its count to the bucket its age is in, changes at most one bucket, and changes none below 18 |
| AgeGroups.Tally | src/app/api/analytics/age-groups/route.ts:18-35 | the fold always yields five buckets |
| AgeGroups.RangeTotalSnoc | src/app/api/analytics/age-groups/route.ts:26-35 | one more item raises a range total by its count exactly when its age is in the range |
| AgeGroups.TallyIsRangeTotal | src/app/api/analytics/age-groups/route.ts:26-35 | bucket k of the fold is the sum of counts of items whose age is in k's range |
| AgeGroups.RangesCoverAdults | src/app/api/analytics/age-groups/route.ts:26-35 | the five range totals add up to the total count of items aged 18 or more |
| AgeGroups.BucketsSumToAdults | src/app/api/analytics/age-groups/route.ts:26-35 | the bucket counts add up to the total count of items aged 18 or more |
| AgeGroups.AgeGroupsResponse | src/app/api/analytics/age-groups/route.ts:18-40 | exactly five entries labelled 18-25, 26-35, 36-45, 46-60, 60+ in that order, each with its range's total |
| Heatmap.FindDay | src/app/api/analytics/heatmap/route.ts:21 | finds the first row with the given day, or reports that no row has it |
| Heatmap.ValueFor | src/app/api/analytics/heatmap/route.ts:21-24 | the first matching row's count, or 0 when no row has the day |
| Heatmap.Fill | src/app/api/analytics/heatmap/route.ts:17-26 | seven entries labelled Mon..Sun; entry i holds the first matching row's count for day i+1, or 0 when no row has that day |
| Heatmap.ValueForCons | src/app/api/analytics/heatmap/route.ts:21-24 | the value is the head's count if its day matches, else the value from the rest |
| Heatmap.ValueForSkips | src/app/api/analytics/heatmap/route.ts:21-24 | a row for another day, anywhere in the input, does not change a day's value |
| Heatmap.OutOfRangeIgnored | src/app/api/analytics/heatmap/route.ts:19-26 | inserting a row whose day is outside 1..7 leaves the result unchanged |
| Heatmap.NonNegative | src/app/api/analytics/heatmap/route.ts:24 | non-negative input counts give non-negative values |
| Listing.Skip | src/app/api/transactions/route.ts:14 | page 1 starts at offset 0 |
| Listing.TotalPages | src/app/api/transactions/route.ts:47 | `ceil(total / limit)`: for a positive limit, the least page count covering total; for a negative limit, the mirrored bound; no finite value when the limit is 0 |
| Listing.Filter | src/app/api/transactions/route.ts:16-33 | never longer than the input, and every record kept satisfies the where clause |
| Listing.FilterMembers | src/app/api/transactions/route.ts:16-33 | a record is in the result exactly when it is stored and matches the search and the type filter |
| Listing.FilterAppend | src/app/api/transactions/route.ts:16-33 | filtering a concatenation filters each part, so order and repeats are kept |
| Listing.FilterSingle | src/app/api/transactions/route.ts:16-33 | a single record is kept exactly when the where clause admits it |
| Listing.FilterInOrder | src/app/api/transactions/route.ts:16-33 | the result is the filtered list without the last record, followed by that record if it is admitted |
| Listing.MatchesType | src/app/api/transactions/route.ts:25-29 | INCOME requires amount > 0, EXPENSE requires amount < 0, and nothing else is required |
| Listing.SearchMeaning | src/app/api/transactions/route.ts:18-23 | a non-empty search matches exactly when the lower-cased name or number holds the lower-cased search somewhere |
| Listing.SliceFromEnd | src/app/api/transactions/route.ts:34-35 | a negative take: at most count records, the ones ending skip records before the end, in list order |
| Listing.SliceFromEndIsReversedSlice | src/app/api/transactions/route.ts:34-35 | a negative take equals a positive take over the reversed list, reversed back |
| Listing.SliceAt | src/app/api/transactions/route.ts:34-35 | a record at an index in [skip, skip + take) is on the page at offset index - skip |
| Listing.Slice | src/app/api/transactions/route.ts:34-35 | at most `limit` records, taken in order from offset `skip`, stopping short only at the end of the list |
| Listing.List | src/app/api/transactions/route.ts:9-49 | the page succeeds exactly when skip is non-negative; then total counts the filtered records, totalPages is their ceiling for either sign of the limit, and the data is the page slice of the filter (counted from the end for a negative limit) |
| Listing.EmptySearchKeepsAll | src/app/api/transactions/route.ts:18-23 | an empty search keeps every record |
| Listing.AmountFilter | src/app/api/transactions/route.ts:12-29 | INCOME keeps exactly amount > 0 and EXPENSE exactly amount < 0, so zero is in neither; any other type keeps all |
| Listing.PageOfIndex | src/app/api/transactions/route.ts:14-47 | with a positive limit, index i lies on page i / limit + 1, which is one of pages 1..totalPages |
| Listing.RecordOnItsPage | src/app/api/transactions/route.ts:14-47 | every filtered record appears on its page, at offset i - skip of that page's data |

## Left out

- The parser itself (Papa Parse) is a value: its error list, header cells and records. Left out are its renaming of duplicate headers, its `__parsed_extra` key for surplus cells, its handling of quotes and line endings, and its line numbering of blank lines. A later duplicate header overwrites an earlier one in the model.
- `Date.parse` and `Number(string)` are parameters. Their own parsing rules, including `Number("")` being 0, are not modelled.
- `String.prototype.toLowerCase` is modelled for ASCII letters only. Other Unicode case mappings are not.
- The stored date is the validated string. The `new Date(row.date)` conversion is not modelled.
- Ages are integers in the age-group route, because the column is an integer. A non-integer age there would fall in no bucket, and that is not modelled. In the upload route the age is a real number, and what the integer column does with a fractional age is not modelled.
- Listing.List: `parseInt` of the page and limit parameters is not modelled, so a non-numeric value (NaN) is not covered. A negative `skip` is refused by the database and is the error result. A negative `take` is modelled as Prisma's backwards take: the last |take| records before the skipped ones.
- Listing: the `orderBy: date desc` ordering is not modelled. The input list is taken as already ordered.
- The HTTP status codes, `formData` access, JSON encoding and `console.error` logging are not modelled. The response is a datatype with the route's error labels.
- Concurrent writers: their isolation is left to the database, and the model treats one request at a time.
- The other dashboard routes (monthly trend, top spenders, gender) and the React components are not part of this model.
- Text.Join: its contract says every part occurs in the result; where the separators go is left to the definition.
- Heatmap: `Number(r.day)` and `Number(found.count)` are taken as integers already. Database numeric types are not modelled.
- The 500 answer's `details: error.message` is not modelled; `InternalError` carries only the error label.
- The success answer's fixed `message` text is not modelled; `Processed` carries only the count.
