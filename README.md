# Salesman registry — a verified Dafny model

This project models the core of a small Laravel service that keeps a
register of salesmen. Each salesman has:

- a first and last name;
- optional academic titles before and after the name;
- a five-character Prosight id;
- an e-mail address and an optional phone number;
- a gender;
- an optional marital status.

The service offers create, read, update, delete and a filtered, sorted,
paginated listing over HTTP. A missing salesman is answered 404
`PERSON_NOT_FOUND` and a duplicate Prosight id or e-mail 409
`PERSON_ALREADY_EXISTS`, each as one `{code, message}` item.

The model follows the program file by file:

| file | module | form |
|---|---|---|
| wrappers.dfy | Wrappers | Option and Result |
| strings.dfy | Strings | PHP string functions: strlen in UTF-8 bytes, implode/explode, trim, case-insensitive substring, code-point ordering |
| php_values.dfy | PhpValues | PHP `mixed` values, `is_numeric` and `(int)` on numeric strings |
| vocabulary.dfy | Vocabulary | what the closed code lists share, including `filterValid` as a loop |
| gender.dfy, marital_status.dfy, title_before.dfy, title_after.dfy | Gender, MaritalStatus, TitleBefore, TitleAfter | the four enums as datatypes with their tables |
| codelist_data.dfy | CodelistData | the codelist document |
| salesman_data.dfy | SalesmanData | the validated input record: fail-fast construction, `toArray`, `getDisplayName`, `fromArray` |
| salesman.dfy | SalesmanModel | the stored row, mass assignment (`fill`), the derived attributes and the query scopes |
| query.dfy, sorting.dfy | Query, Sorting | the repository's filters, sort parser and page slicing, as pure functions |
| repository.dfy | Repository | the repository, as a class owning the table (a `seq` of rows in insertion order) |
| service.dfy | Service | the service, as a class over the repository, specified by functions from the table before to the result and the table after |
| handler.dfy | Handler | the exception-to-response table |
| create_salesman_request.dfy | CreateRequest | the create request's rules, as the set of failing attributes |
| salesman_controller.dfy | Controller | the controller's actions, as functions from the table to the reply |
| salesman_resource.dfy | SalesmanResource | the JSON representation of a row |
| salesman_seeder.dfy | SeederParsing, Seeder | the seeder's CSV line parsing: pure definitions, and the loop as methods |

Things the model takes as parameters:

- E-mail syntax (`filter_var` and Laravel's `email` rule) is a predicate the caller supplies.
- The clock (`now`) is a parameter of every write.
- Generating a fresh UUID is also a parameter: a `newId` that no stored row has.

The proofs bring out one mismatch between the request's rules and the
record's own checks.

- The rules count characters (`size:5`, `min:2`, `max:50`). The record counts bytes (`strlen`).
- So a request whose Prosight id is five non-ASCII characters passes every rule.
- `fromArray` then rejects it, which the handler answers with a 500.
- `CreateRequest.NonAsciiProsightId` proves this on a concrete request.
- `CreateRequest.AcceptedInputParses` and `Controller.StoreAccepted` show that accepted input is stored once the names and the Prosight id are ASCII, the e-mail passes the record's check and the marital status is not a blank string.

`app/Exceptions/Handler.php` is modelled as written (module `Handler`),
but it is not the live response path. bootstrap/app.php binds the
framework's own exception handler. It registers renderers only for the
not-found (404) and already-exists (409) exceptions, and these give the
same bodies as `Handler.php`. Everything else goes out in the framework's
formats:

- a failed validation is a 422 with per-field `errors`, as the feature tests expect;
- any other exception is a generic 500.

`Handler.php` would instead answer a failed validation with 400
`INPUT_DATA_BAD_FORMAT`.

Several operations are functions whose meaning is stated by the lemmas
about them rather than by their own contract. Each such function, and the
rows of the table below that state what it does:

- `fromArray` is `SalesmanData.FromArray`: `FromArrayValid`, `FromArraySucceeds`, `FromArrayGenderFirst`, `FromArrayMaritalStatus`, `FromArrayCoercesNonStrings`, `TitlesNeverFail`, `FromArrayToArray`, `FromArrayToArrayExact`.
- `SalesmanData::toArray` is `SalesmanData.ToArray`: `ToArrayFields`, and the round trips above.
- `buildQuery` is `Query.BuildQuery`, built from `Query.Select`: `Select`, `SelectAppend`, `SelectNothing`, `IgnoredFilter`, `GenderFilter`, `ProsightIdFilterIsSubstring`.
- The sort parser in `applySorting` is `Sorting.ParseSort`: `ParseRender`, `RenderParse`, `ParseSortRejects`.
- `ORDER BY` is `Sorting.SortRows`: `SortRowsSorted`, `SortedUnique`, `DescendingIsReversed`, `AliceAndZoe`.
- The filtered and sorted listing that `paginate` and `getAll` slice is `Repository.Ordered`: `OrderedRows`.
- `validateUniqueConstraints` is `Service.UniqueCheck`, proved equal to the method `Service.SalesmanService.ValidateUniqueConstraints`.
- The service's `create`, `update` and `delete` are `Service.CreateOutcome`, `Service.UpdateOutcome` and `Service.DeleteOutcome`. The methods of `Service.SalesmanService` are proved equal to them, and the `Create*`, `Update*` and `Delete*` lemmas of `Service` state what they do.
- `handleApiException` is `Handler.HandleApiException`: `ResponseShape`, `SameCodeSameStatus`, `MessagesPassedThrough`, `ServiceErrorResponses`. `render` is `Handler.Render`: `RenderJsonOnly`.
- The create request's `rules()` are `CreateRequest.Errors`, the set of failing attributes: `FieldInErrors`, `NoErrorsIff`, `EmptyBody`, `FieldsIndependent`, `Accepted`.
- The controller's actions are `Controller.Index`, `Store`, `Show`, `Update` and `Destroy`: `IndexListing`, `StoreRejectsInvalid`, `StoreCreated`, `StoreAccepted`, `UnknownIdNotFound`, `ShowFound`, `UpdateFound`, `DestroyFound`.
- The resource's `toArray` is `SalesmanResource.ToArray`: `ToArrayKeys`, `ToArrayCopies`, `ToArrayDerived`, `TitleListsIff`, `ToArrayInjective`.
- The seeder's per-line row is `SeederParsing.RowOf`: `RowOfKeys`, `RowOfColumn`, `RowOfTitles`, `RowOfPhone`, `RowOfMaritalStatus`. The whole parse is `SeederParsing.ParseCsv`: `ParseCsvSize`, `DataRowsAppend`, `DataRowsOne`, and the loop `Seeder.ParseCsvFile` that computes it.
- The model's `self` attribute is `SalesmanModel.SelfLink` (`SelfLinkKey`), and `scopeSearch` is `SalesmanModel.MatchesSearch` (`SearchIff`).

## Model

| member | source | states |
|---|---|---|
| Gender.Gender.DisplayName | app/Enums/Gender.php:40-43 | the display name of a case is getOptions() of its value: "muž" for m, "žena" for f |
| Gender.IsValidIff | app/Enums/Gender.php:49-52 | isValid(v) holds exactly for "m" and "f"; "invalid", "" and "M" are rejected |
| Gender.IsValidIffAll | app/Enums/Gender.php:49-52 | for every string, isValid holds iff it is "m" or "f" |
| Gender.OptionsTable | app/Enums/Gender.php:18-24 | getOptions has exactly the keys m and f, maps them to "muž" and "žena", and its keys are exactly the valid codes |
| Gender.ToArrayShape | app/Enums/Gender.php:29-38 | toArray is the two entries m then f, each named by getOptions of its code |
| MaritalStatus.MaritalStatus.DisplayName | app/Enums/MaritalStatus.php:72-75 | for either gender, the display name is getOptions()[gender][value], which exists for every case |
| MaritalStatus.IsValidIff | app/Enums/MaritalStatus.php:81-84 | isValid holds exactly for single, married, divorced and widowed |
| MaritalStatus.OptionsTable | app/Enums/MaritalStatus.php:21-37 | getOptions has exactly the keys m and f, each names exactly the four valid codes, and every valid gender is a key |
| MaritalStatus.ToArrayShape | app/Enums/MaritalStatus.php:45-66 | four entries in declaration order; the m and f names of each equal getOptions()['m'\|'f'][code] |
| Vocabulary.Keep | app/Enums/TitleBefore.php:77-87 | the kept values are no more than the input and all belong to the code list |
| Vocabulary.KeepAppend | app/Enums/TitleBefore.php:77-87 | filtering distributes over concatenation, so order is preserved |
| Vocabulary.KeepIsSubsequence | app/Enums/TitleBefore.php:77-87 | the result is a subsequence of the input: nothing is reordered |
| Vocabulary.KeepCounts | app/Enums/TitleBefore.php:77-87 | each valid value keeps all its occurrences (duplicates kept); an invalid value keeps none |
| Vocabulary.KeepEmptyIff | app/Enums/TitleBefore.php:77-87 | nothing is kept iff no element is a code |
| Vocabulary.KeepAllValid | app/Enums/TitleBefore.php:77-87 | a list made only of codes is kept whole |
| Vocabulary.Filter | app/Enums/TitleBefore.php:86 | a non-null result is non-empty and is the kept values |
| Vocabulary.FilterNoneIff | app/Enums/TitleBefore.php:86 | filterValid returns null iff no element is valid, the empty list included |
| Vocabulary.FilterIdempotent | app/Enums/TitleBefore.php:77-87 | filtering a non-null result again gives the same result |
| Vocabulary.KeepStep | app/Enums/TitleBefore.php:79-84 | one loop iteration appends the element exactly when it is a code |
| Vocabulary.FilterValid | app/Enums/TitleBefore.php:77-87 | the foreach loop computes the filter function |
| TitleBefore.TitleBefore.DisplayName | app/Enums/TitleBefore.php:59-62 | the display name is getOptions() of the code |
| TitleBefore.FilterValid | app/Enums/TitleBefore.php:77-87 | null iff no element is valid; otherwise the valid elements in their original order, each satisfying isValid |
| TitleBefore.CaseListed | app/Enums/TitleBefore.php:12-32 | every case is among the 21 declared cases and its value among the codes |
| TitleBefore.IsValidIff | app/Enums/TitleBefore.php:68-71 | isValid(v) holds iff v is exactly the value of some case |
| TitleBefore.ValueInjective | app/Enums/TitleBefore.php:12-32 | no two cases share a value |
| TitleBefore.ToArrayShape | app/Enums/TitleBefore.php:48-57 | toArray lists the 21 codes once each, in declaration order, with name == code |
| TitleBefore.OptionsIdentity | app/Enums/TitleBefore.php:37-43 | getOptions has exactly the valid codes as keys and maps each code to itself |
| TitleAfter.TitleAfter.DisplayName | app/Enums/TitleAfter.php:54-57 | the display name is getOptions() of the code |
| TitleAfter.FilterValid | app/Enums/TitleAfter.php:72-82 | null iff no element is valid; otherwise the valid elements in their original order, each satisfying isValid |
| TitleAfter.CaseListed | app/Enums/TitleAfter.php:12-27 | every case is among the 16 declared cases and its value among the codes |
| TitleAfter.IsValidIff | app/Enums/TitleAfter.php:63-66 | isValid(v) holds iff v is exactly the value of some case |
| TitleAfter.ValueInjective | app/Enums/TitleAfter.php:12-27 | no two cases share a value |
| TitleAfter.ToArrayShape | app/Enums/TitleAfter.php:43-52 | toArray lists the 16 codes once each, in declaration order, with name == code |
| TitleAfter.OptionsIdentity | app/Enums/TitleAfter.php:32-38 | getOptions has exactly the valid codes as keys and maps each code to itself |
| CodelistData.GetAll | app/DTOs/CodelistData.php:31-39 | getAll: under each of the four keys, the codes listed are exactly the codes that enum's isValid accepts |
| CodelistData.GendersListed | app/DTOs/CodelistData.php:31-39 | the genders list has 2 entries, m first and f second |
| CodelistData.MaritalStatusesListed | app/DTOs/CodelistData.php:31-39 | the marital statuses list has the 4 codes in declaration order |
| CodelistData.TitlesBeforeListed | app/DTOs/CodelistData.php:31-39 | the titles-before list has 21 entries, Ing., Mgr. and Dr. among them |
| CodelistData.TitlesAfterListed | app/DTOs/CodelistData.php:31-39 | the titles-after list has 16 entries, PhD., MBA and CSc. among them |
| Strings.Utf8Width | app/DTOs/SalesmanData.php:50-58 | a character takes 1 to 4 bytes, and 1 exactly when it is ASCII |
| Strings.ByteLen | app/DTOs/SalesmanData.php:50-58 | strlen is at least the character count, and equals it iff the string is ASCII |
| Strings.JoinAppend | app/DTOs/SalesmanData.php:134 | imploding a concatenation is imploding each part with the separator between them |
| Strings.IndexOf | database/seeders/SalesmanSeeder.php:61 | the first position of the character, or the length when it does not occur |
| Strings.Split | database/seeders/SalesmanSeeder.php:61 | explode gives at least one piece, no piece holds the separator, and imploding the pieces restores the input |
| Strings.TrimLeft | database/seeders/SalesmanSeeder.php:61 | the result is a suffix of the input, only trim characters were cut, and it does not start with one |
| Strings.TrimRight | database/seeders/SalesmanSeeder.php:61 | the result is a prefix of the input, only trim characters were cut, and it does not end with one |
| Strings.Trim | database/seeders/SalesmanSeeder.php:61 | trim cuts trim characters from both ends only, leaving neither end on a trim character |
| Strings.Contains | app/Models/Salesman.php:139-142 | true iff the needle occurs in the text |
| Strings.ContainsIgnoreCase | app/Models/Salesman.php:139-142 | true iff the lower-cased term occurs in the lower-cased text |
| Strings.LessEqTotal | app/Repositories/SalesmanRepository.php:177 | the string ordering used by ORDER BY is total |
| Strings.LessEqAntisymmetric | app/Repositories/SalesmanRepository.php:177 | the string ordering is antisymmetric |
| Strings.LessEqTransitive | app/Repositories/SalesmanRepository.php:177 | the string ordering is transitive |
| PhpValues.StrList | app/DTOs/SalesmanData.php:108-109 | a list of strings becomes an array value of the same length whose elements are those strings |
| PhpValues.StringItems | app/DTOs/SalesmanData.php:146-147 | every kept string is a string element of the array, and every string element is kept |
| PhpValues.StringItemsAppend | app/DTOs/SalesmanData.php:146-147 | the items are visited in order: one more item adds its payload when it is a string and nothing otherwise |
| PhpValues.StringItemsExample | app/DTOs/SalesmanData.php:146-147 | an integer, a null and an array are dropped, the two strings kept in order |
| PhpValues.StringsOfStrList | app/DTOs/SalesmanData.php:104-117 | the string elements of a list of strings are that list |
| PhpValues.StripLeadingSpaceCuts | app/Http/Controllers/Api/SalesmanController.php:34-35 | the result is a suffix of the input, every character cut is whitespace, and the result does not start with whitespace |
| PhpValues.StripTrailingSpaceCuts | app/Http/Controllers/Api/SalesmanController.php:34-35 | the result is a prefix of the input, every character cut is whitespace, and the result does not end with whitespace |
| PhpValues.DigitPrefix | app/Http/Controllers/Api/SalesmanController.php:34-35 | the longest run of leading digits: all digits, and not followed by one |
| PhpValues.NatToString | app/Http/Controllers/Api/SalesmanController.php:34-35 | the decimal form of a number is a non-empty digit string |
| PhpValues.DigitsValueOfNatToString | app/Http/Controllers/Api/SalesmanController.php:34-35 | reading back the decimal form of n gives n |
| PhpValues.NumericStringIntRoundTrip | app/Http/Controllers/Api/SalesmanController.php:34-35 | (int) of the decimal form of any integer, negative ones included, is that integer |
| PhpValues.NumericStringIntSpaced | app/Http/Controllers/Api/SalesmanController.php:34-35 | is_numeric accepts a decimal surrounded by whitespace, and (int) gives its value |
| PhpValues.DigitPrefixAllDigits | app/Http/Controllers/Api/SalesmanController.php:34-35 | the digit prefix of an all-digit string is the whole string |
| SalesmanData.FirstInvalid | app/DTOs/SalesmanData.php:74-88 | the foreach stops at the first title that is not a code; every title before it is a code |
| SalesmanData.Validate | app/DTOs/SalesmanData.php:48-89 | no violation iff every check holds; a violation names a check that fails, every earlier check passes, and a title violation names the first title of its list that is not a code, every earlier title being one |
| SalesmanData.New | app/DTOs/SalesmanData.php:31-43 | construction succeeds iff the record is valid, and then yields the record unchanged |
| SalesmanData.ToArrayFields | app/DTOs/SalesmanData.php:104-117 | toArray has exactly the nine snake_case keys and copies each field unchanged, absent ones as null |
| SalesmanData.DisplayNameLayout | app/DTOs/SalesmanData.php:119-135 | the display name is the titles before plus a space, the first name, a space, the last name, then a space plus the titles after, absent lists contributing nothing |
| SalesmanData.JoinAfterPrefix | app/DTOs/SalesmanData.php:123-134 | imploding titles-before followed by the names is the titles, a space, then the names |
| SalesmanData.JoinBeforeSuffix | app/DTOs/SalesmanData.php:127-134 | imploding the names followed by titles-after is the names, a space, then the titles |
| SalesmanData.DisplayNameExamples | app/DTOs/SalesmanData.php:119-135 | "Ing. John Doe PhD." with both titles and "John Doe" without |
| SalesmanData.TitlesFrom | app/DTOs/SalesmanData.php:144-160 | a title list read from the input is null or a non-empty list of codes |
| SalesmanData.FromArrayValid | app/DTOs/SalesmanData.php:142-204 | every record fromArray returns passes the constructor's checks, and its title lists are the filtered string elements of the input lists |
| SalesmanData.FromArrayGenderFirst | app/DTOs/SalesmanData.php:162-166 | a gender other than exactly "m" or "f" throws "Invalid gender: <value>" before anything else is checked |
| SalesmanData.FromArrayMaritalStatus | app/DTOs/SalesmanData.php:168-171 | with a valid gender, an invalid marital-status string throws "Invalid marital status: <value>" |
| SalesmanData.FromArrayCoercesNonStrings | app/DTOs/SalesmanData.php:168-200 | a non-string marital_status or phone silently becomes null |
| SalesmanData.FromArrayInvalidGenderExample | app/DTOs/SalesmanData.php:162-166 | the gender "invalid" is rejected with "Invalid gender: invalid" |
| SalesmanData.FromArraySucceeds | app/DTOs/SalesmanData.php:142-204 | fromArray succeeds iff the gender is m or f, the marital status is absent or a code, the names, id and e-mail are strings, the names are 2 to 50 bytes, the id is 5 bytes and the e-mail passes |
| SalesmanData.TitlesNeverFail | app/DTOs/SalesmanData.php:144-160 | replacing a title list by any value never changes whether fromArray succeeds: titles never cause an error |
| SalesmanData.TitlesRoundTrip | app/DTOs/SalesmanData.php:144-160 | reading back a valid title list gives it again, except that an empty list comes back as null |
| SalesmanData.FromArrayToArray | app/DTOs/SalesmanData.php:104-204 | for a valid record, fromArray(toArray(d)) is d with empty title lists turned to null |
| SalesmanData.FromArrayToArrayExact | app/DTOs/SalesmanData.php:104-204 | for a valid record without empty title lists, fromArray(toArray(d)) == d |
| SalesmanModel.Fill | app/Models/Salesman.php:46-56 | fill sets the nine fillable fields from the record and keeps the key and the timestamps |
| SalesmanModel.Inserted | app/Services/SalesmanService.php:30 | a new row holds the record's fields, the new key and the current time as both timestamps |
| SalesmanModel.FillableKeys | app/Models/Salesman.php:46-56 | the record's toArray has exactly the fillable keys, which exclude id and the timestamps |
| SalesmanModel.FillLaws | app/Models/Salesman.php:46-56 | filling a row with its own fields changes nothing, and a second fill overrides the first completely |
| SalesmanModel.DisplayName | app/Models/Salesman.php:79-95 | the row's display name is the record's display name of its fields |
| SalesmanModel.SelfLinkKey | app/Models/Salesman.php:100-103 | self is "/salesmen/" followed by the key, and two rows have the same self link iff they have the same key |
| SalesmanModel.SearchIff | app/Models/Salesman.php:136-144 | a row matches the search iff the term is a case-insensitive substring of first name, last name, e-mail or Prosight id; the empty term matches every row |
| Query.Select | app/Repositories/SalesmanRepository.php:127-148 | the selected rows are exactly the stored rows that pass every applied filter |
| Query.SelectAppend | app/Repositories/SalesmanRepository.php:127-148 | selection keeps the table's order |
| Query.SelectNothing | app/Repositories/SalesmanRepository.php:127-148 | with no filter applied, every row is listed in order |
| Query.IgnoredFilter | app/Repositories/SalesmanRepository.php:131-145 | an unknown key, a non-string value, or a gender or marital status outside its codes is ignored |
| Query.GenderFilter | app/Repositories/SalesmanRepository.php:135-137 | the gender filter keeps exactly the rows with that gender |
| Query.ProsightIdFilterIsSubstring | app/Repositories/SalesmanRepository.php:143-145 | the prosight_id filter is a case-insensitive substring match, not equality |
| Query.LastPage | app/Repositories/SalesmanRepository.php:78-82 | the last page is at least 1 and the smallest page count holding every row |
| Query.PageOf | app/Repositories/SalesmanRepository.php:78-82 | the page is the perPage-long slice starting at (page - 1) * perPage, shorter at the end and empty past it, with the total of all rows |
| Query.RowOnItsPage | app/Repositories/SalesmanRepository.php:78-82 | row q * perPage + r is item r of page q + 1 |
| Query.TwentyFiveRows | app/Repositories/SalesmanRepository.php:69-85 | 25 rows at page 2 with 10 per page give rows 10 to 19, and 3 pages |
| Sorting.NoFieldStartsWithDash | app/Repositories/SalesmanRepository.php:165-174 | no whitelisted column starts with '-' |
| Sorting.ParseRender | app/Repositories/SalesmanRepository.php:155-181 | parsing the text of a whitelisted sort gives that sort back |
| Sorting.RenderParse | app/Repositories/SalesmanRepository.php:155-181 | a sort parameter that parses names a whitelisted column and is the text of its sort |
| Sorting.ParseSortRejects | app/Repositories/SalesmanRepository.php:160-178 | only one '-' is stripped, so "--first_name" orders nothing; "" and "id" are ignored; "-first_name" is descending first name |
| Sorting.KeyLeTotal | app/Repositories/SalesmanRepository.php:177 | the column ordering is total |
| Sorting.KeyLeTransitive | app/Repositories/SalesmanRepository.php:177 | the column ordering is transitive |
| Sorting.KeyLeAntisymmetric | app/Repositories/SalesmanRepository.php:177 | the column ordering is antisymmetric |
| Sorting.BeforeTotal | app/Repositories/SalesmanRepository.php:177 | of two rows, one comes first in either direction |
| Sorting.BeforeTransitive | app/Repositories/SalesmanRepository.php:177 | the row ordering is transitive |
| Sorting.SortedTail | app/Repositories/SalesmanRepository.php:177 | the tail of an ordered listing is ordered |
| Sorting.SortedCons | app/Repositories/SalesmanRepository.php:177 | a row ahead of every row of an ordered listing extends it |
| Sorting.InsertSorted | app/Repositories/SalesmanRepository.php:177 | inserting into an ordered listing keeps it ordered and adds exactly that row |
| Sorting.InsertAfterHead | app/Repositories/SalesmanRepository.php:177 | the head of an ordered listing still comes first after inserting a later row |
| Sorting.SortRowsSorted | app/Repositories/SalesmanRepository.php:177 | ORDER BY yields an ordered permutation of the rows |
| Sorting.SortedHeadFirst | app/Repositories/SalesmanRepository.php:177 | the head of an ordered listing comes no later than any of its rows |
| Sorting.SortedHeadsEqual | app/Repositories/SalesmanRepository.php:177 | two ordered listings of the same rows with distinct keys start with the same row |
| Sorting.SortedUnique | app/Repositories/SalesmanRepository.php:177 | with distinct keys, the ordered arrangement of a set of rows is unique |
| Sorting.TailsSameRows | app/Repositories/SalesmanRepository.php:177 | two permutations with the same head have permuted tails |
| Sorting.DistinctKeysTail | app/Repositories/SalesmanRepository.php:177 | distinct keys stay distinct in a tail |
| Sorting.ReverseFacts | app/Repositories/SalesmanRepository.php:160-163 | the reversed listing has the same rows, back to front |
| Sorting.DescendingIsReversed | app/Repositories/SalesmanRepository.php:160-177 | with distinct keys, the descending order is the ascending order reversed |
| Sorting.AliceAndZoe | app/Repositories/SalesmanRepository.php:160-177 | ascending first name puts Alice before Zoe; descending puts Zoe first |
| Repository.IdIndex | app/Repositories/SalesmanRepository.php:15-21 | the position of the first row with the key, or the table's length when none has it |
| Repository.FirstWith | app/Repositories/SalesmanRepository.php:23-41 | the position of the first row whose field has the value, or the table's length |
| Repository.FirstTaken | app/Repositories/SalesmanRepository.php:101-121 | a position inside the table exactly when the value is taken |
| Repository.Without | app/Repositories/SalesmanRepository.php:57-60 | the rows left are exactly the stored rows without that key |
| Repository.DistinctTail | app/Repositories/SalesmanRepository.php:57-60 | with distinct keys, the tail has distinct keys, lacks the head's key and has every other key of the table |
| Repository.WithoutCount | app/Repositories/SalesmanRepository.php:57-60 | deleting a stored key removes exactly one row; deleting an unknown one changes nothing |
| Repository.WithoutDistinct | app/Repositories/SalesmanRepository.php:57-60 | deleting keeps the keys distinct |
| Repository.Replace | app/Repositories/SalesmanRepository.php:50-55 | saving replaces the row with the same key, in place, and no other |
| Repository.OrderedRows | app/Repositories/SalesmanRepository.php:69-85 | without a valid sort the listing is the filtered rows in table order; with one it is their ordered permutation |
| Repository.SalesmanRepository.FindById | app/Repositories/SalesmanRepository.php:15-21 | a stored row with that key, or null iff none has it |
| Repository.SalesmanRepository.FindByProsightId | app/Repositories/SalesmanRepository.php:23-31 | the first stored row with that Prosight id, or null iff none has it |
| Repository.SalesmanRepository.FindByEmail | app/Repositories/SalesmanRepository.php:33-41 | the first stored row with that e-mail, or null iff none has it |
| Repository.SalesmanRepository.Create | app/Repositories/SalesmanRepository.php:43-48 | appends exactly the new row, keeping the keys distinct |
| Repository.SalesmanRepository.Update | app/Repositories/SalesmanRepository.php:50-55 | saves the row in place of the row with its key, setting updated_at to the save time when an attribute changed |
| Repository.SalesmanRepository.Delete | app/Repositories/SalesmanRepository.php:57-60 | true iff the key was stored; afterwards the rows are the old ones without that key |
| Repository.SalesmanRepository.ExistsByProsightId | app/Repositories/SalesmanRepository.php:101-110 | true iff some row has the Prosight id and, when a key is excluded, a different key |
| Repository.SalesmanRepository.ExistsByEmail | app/Repositories/SalesmanRepository.php:112-121 | true iff some row has the e-mail and, when a key is excluded, a different key |
| Repository.SalesmanRepository.Paginate | app/Repositories/SalesmanRepository.php:69-85 | the page of the filtered, ordered rows: at most perPage stored rows passing the filters, with the filtered total |
| Repository.SalesmanRepository.GetAll | app/Repositories/SalesmanRepository.php:91-99 | exactly the stored rows passing the filters, in table order |
| Service.CreateChecks | app/Services/SalesmanService.php:26-98 | create fails iff the Prosight id or the e-mail is taken, reporting the Prosight id when both are; a failure leaves the table unchanged |
| Service.CreateAppends | app/Services/SalesmanService.php:30-32 | a successful create appends one row with the record's fields, the new key and the current time |
| Service.CreatePreservesUniqueKeys | app/Services/SalesmanService.php:26-33 | create keeps keys, Prosight ids and e-mails unique |
| Service.UpdateNotFoundFirst | app/Services/SalesmanService.php:39-43 | updating an unknown key throws not-found before any uniqueness check, and writes nothing |
| Service.UpdateFailure | app/Services/SalesmanService.php:39-47 | a failed update leaves the table unchanged; not-found exactly for an unknown key, and a duplicate only when another row holds the value |
| Service.UpdateKeepsOwnKeys | app/Services/SalesmanService.php:43-98 | keeping the row's own Prosight id and e-mail never counts as a duplicate |
| Service.UpdateOverwrites | app/Services/SalesmanService.php:45-47 | a successful update overwrites all nine fields of that row, keeps its key and created_at, and changes no other row |
| Service.UpdatePreservesUniqueKeys | app/Services/SalesmanService.php:39-48 | update keeps keys, Prosight ids and e-mails unique |
| Service.DeleteRemovesOne | app/Services/SalesmanService.php:79-84 | delete throws not-found exactly for an unknown key; otherwise it removes exactly that row |
| Service.DeletePreservesUniqueKeys | app/Services/SalesmanService.php:79-84 | delete keeps keys, Prosight ids and e-mails unique |
| Service.WithoutUnique | app/Services/SalesmanService.php:83 | removing a row keeps keys, Prosight ids and e-mails unique |
| Service.DuplicateExamples | app/Services/SalesmanService.php:89-98 | a taken Prosight id is refused on create; re-saving a row's own values succeeds on update |
| Service.SalesmanService.constructor | app/Services/SalesmanService.php:18-21 | the service works on the repository it is given |
| Service.SalesmanService.ValidateUniqueConstraints | app/Services/SalesmanService.php:89-98 | no error iff neither the Prosight id nor the e-mail is held by a row other than the excluded one |
| Service.SalesmanService.Create | app/Services/SalesmanService.php:26-33 | the result and the new table are those of the create function, and the table stays valid |
| Service.SalesmanService.FindById | app/Services/SalesmanService.php:53-62 | the stored row with the key, or not-found iff none has it |
| Service.SalesmanService.Update | app/Services/SalesmanService.php:39-48 | the result and the new table are those of the update function, and the table stays valid |
| Service.SalesmanService.Delete | app/Services/SalesmanService.php:79-84 | the result and the new table are those of the delete function, and the table stays valid |
| Service.SalesmanService.Paginate | app/Services/SalesmanService.php:71-74 | the page the repository gives for the same arguments |
| Handler.ResponseShape | app/Exceptions/Handler.php:62-139 | every response has exactly one error item, its status is the one its code is always sent with, and only unexpected exceptions give 500 |
| Handler.RenderJsonOnly | app/Exceptions/Handler.php:48-52 | the JSON table is used exactly when the request expects JSON, and then it is handleApiException's response |
| Handler.SameCodeSameStatus | app/Exceptions/Handler.php:62-139 | two responses with the same code have the same status |
| Handler.MessagesPassedThrough | app/Exceptions/Handler.php:64-138 | the application's exceptions keep their message; validation gets "Bad format of input data."; others get the generic message |
| Handler.FromServiceError | app/Services/SalesmanService.php:58-96 | the thrown exception carries the service's message |
| Handler.ServiceErrorResponses | app/Exceptions/Handler.php:64-84 | not-found is answered 404 PERSON_NOT_FOUND and a duplicate 409 PERSON_ALREADY_EXISTS, each with its message |
| CreateRequest.BlankIff | app/Http/Requests/CreateSalesmanRequest.php:35-99 | a value counts as blank exactly when it trims to the empty string |
| CreateRequest.ElementErrors | app/Http/Requests/CreateSalesmanRequest.php:55-71 | element errors are reported under dotted keys |
| CreateRequest.ElementKey | app/Http/Requests/CreateSalesmanRequest.php:55-71 | an element's key contains a dot, so it never names a whole attribute |
| CreateRequest.Validated | app/Http/Requests/CreateSalesmanRequest.php:35-99 | the validated data are the input's values for the attributes with rules, and nothing else |
| CreateRequest.EmptyBody | app/Http/Requests/CreateSalesmanRequest.php:38-97 | an empty body fails on all five required attributes at once |
| CreateRequest.FieldsIndependent | app/Http/Requests/CreateSalesmanRequest.php:35-99 | whether an attribute fails depends on that attribute alone: validation accumulates and is not fail-fast |
| CreateRequest.FieldInErrors | app/Http/Requests/CreateSalesmanRequest.php:35-99 | an attribute is reported iff its rules fail |
| CreateRequest.TitleCodesFit | app/Http/Requests/CreateSalesmanRequest.php:55-71 | every title code is 2 to 10 characters long |
| CreateRequest.BeforeLength | app/Http/Requests/CreateSalesmanRequest.php:55-60 | every title-before case is 2 to 10 characters long |
| CreateRequest.AfterLength | app/Http/Requests/CreateSalesmanRequest.php:66-71 | every title-after case is 2 to 10 characters long |
| CreateRequest.TitleRuleIsMembership | app/Http/Requests/CreateSalesmanRequest.php:55-71 | for a non-blank string element the length rule adds nothing: the element passes iff it is a code |
| CreateRequest.NoErrorsIff | app/Http/Requests/CreateSalesmanRequest.php:35-99 | the request passes iff every attribute and every list element passes |
| CreateRequest.ElementErrorsEmpty | app/Http/Requests/CreateSalesmanRequest.php:55-71 | no element error iff every element of the list passes |
| CreateRequest.FromArrayWellTyped | app/DTOs/SalesmanData.php:142-204 | on well-typed validated data, fromArray is the constructor applied to the values read |
| CreateRequest.AllFieldsOk | app/Http/Requests/CreateSalesmanRequest.php:35-99 | if each attribute's rules hold, every attribute passes |
| CreateRequest.NoListNoElementErrors | app/Http/Requests/CreateSalesmanRequest.php:35-99 | without title lists, the request passes iff every attribute does |
| CreateRequest.FieldsWithoutLists | app/Http/Requests/CreateSalesmanRequest.php:35-99 | input meeting every attribute's rules, without title lists, passes |
| CreateRequest.Accepted | app/Http/Requests/CreateSalesmanRequest.php:35-99 | a request that passes meets the rules of every attribute |
| CreateRequest.AcceptedInputParses | app/Http/Controllers/Api/SalesmanController.php:58 | accepted input with ASCII names and id, an e-mail the record accepts and a non-blank marital status parses into a valid record |
| CreateRequest.AcceptedWellTyped | app/Http/Requests/CreateSalesmanRequest.php:35-99 | accepted input is well typed for fromArray, and the record read keeps the input's values |
| CreateRequest.RecordValid | app/DTOs/SalesmanData.php:48-89 | a record read from well-typed data whose names and id are ASCII of the right lengths, and whose e-mail passes, is valid |
| CreateRequest.NotBlank | app/Http/Requests/CreateSalesmanRequest.php:35-99 | a string with a non-trim character is not blank |
| CreateRequest.NonAsciiProsightId | app/Http/Requests/CreateSalesmanRequest.php:72-77 | a five-character non-ASCII Prosight id passes the rules but fromArray rejects it on its byte length |
| CreateRequest.NonAsciiExampleAccepted | app/Http/Requests/CreateSalesmanRequest.php:35-99 | the non-ASCII example request raises no error |
| CreateRequest.NonAsciiExampleNames | app/Http/Requests/CreateSalesmanRequest.php:38-49 | the example's names meet their rules |
| CreateRequest.NonAsciiExampleKeys | app/Http/Requests/CreateSalesmanRequest.php:72-82 | the example's Prosight id and e-mail meet their rules |
| CreateRequest.NonAsciiExampleCodes | app/Http/Requests/CreateSalesmanRequest.php:50-97 | the example's codes, phone and title lists meet their rules |
| CreateRequest.NonAsciiExampleRejected | app/DTOs/SalesmanData.php:58-60 | fromArray rejects the example with "Prosight ID must be exactly 5 characters" |
| Controller.Clamped | app/Http/Controllers/Api/SalesmanController.php:34-35 | a page parameter is always at least 1 |
| Controller.PageParam | app/Http/Controllers/Api/SalesmanController.php:31-34 | the page is at least 1 |
| Controller.PerPageParam | app/Http/Controllers/Api/SalesmanController.php:32-35 | the page size is at least 1 |
| Controller.PageDefaults | app/Http/Controllers/Api/SalesmanController.php:31-35 | without parameters the page is 1 and the page size 15 |
| Controller.PageParamsRoundTrip | app/Http/Controllers/Api/SalesmanController.php:31-35 | a positive decimal page or page size is taken as given |
| Controller.PageParamsRaised | app/Http/Controllers/Api/SalesmanController.php:34-35 | a value below 1 is raised to 1 |
| Controller.PageParamsFallback | app/Http/Controllers/Api/SalesmanController.php:34-35 | a non-numeric value falls back to page 1 and page size 15 |
| Controller.PageParamTruncated | app/Http/Controllers/Api/SalesmanController.php:34 | a fractional page is truncated: "2.9" gives 2 |
| Controller.FilterParams | app/Http/Controllers/Api/SalesmanController.php:39-42 | the filters passed on are exactly the query's search, gender, marital_status and prosight_id values that are strings, unchanged |
| Controller.FilterParamsSameListing | app/Http/Controllers/Api/SalesmanController.php:39-42 | narrowing the query to those filters does not change the listing |
| Controller.IndexListing | app/Http/Controllers/Api/SalesmanController.php:29-49 | the listing answers 200 without writing; the page is at most the page size and lists only stored rows passing the query's filters |
| Controller.StoreRejectsInvalid | app/Http/Controllers/Api/SalesmanController.php:56-63 | input breaking the rules throws the validation exception and writes nothing |
| Controller.StoreCreated | app/Http/Controllers/Api/SalesmanController.php:56-63 | a created salesman is answered 201 with its representation, and is the one row appended, with the new key |
| Controller.StoreAccepted | app/Http/Controllers/Api/SalesmanController.php:56-63 | input the rules accept, with ASCII names and id, an e-mail the record accepts and a non-blank marital status, is answered 201 |
| Controller.UnknownIdNotFound | app/Http/Controllers/Api/SalesmanController.php:68-100 | show, update and destroy of an unknown key throw not-found, answered 404 with the key in the message, and write nothing |
| Controller.ShowFound | app/Http/Controllers/Api/SalesmanController.php:68-75 | show of a stored key answers 200 with that row's representation |
| Controller.UpdateFound | app/Http/Controllers/Api/SalesmanController.php:81-89 | update of a stored key whose new Prosight id and e-mail no other row holds answers 200 with the row overwritten in place: the data's nine fields, the key kept, other rows unchanged |
| Controller.DestroyFound | app/Http/Controllers/Api/SalesmanController.php:95-100 | destroy of a stored key answers 204 with no content and removes that row |
| SalesmanResource.ToArrayKeys | app/Http/Resources/SalesmanResource.php:53-68 | the representation has exactly the fourteen keys |
| SalesmanResource.ToArrayCopies | app/Http/Resources/SalesmanResource.php:54-65 | key, names, Prosight id, e-mail, gender, phone and marital status are copied unchanged, absent ones as null |
| SalesmanResource.ToArrayDerived | app/Http/Resources/SalesmanResource.php:55-67 | display_name and self are the model's derived attributes, self being "/salesmen/" and the key; the timestamps are the stored ones |
| SalesmanResource.TitleListsIff | app/Http/Resources/SalesmanResource.php:59-60 | a title list serialises as null iff it is absent or empty, and otherwise as its values in order |
| SalesmanResource.ToArrayInjective | app/Http/Resources/SalesmanResource.php:53-68 | two rows with the same representation agree on every attribute; an empty and an absent title list are not told apart |
| SeederParsing.TrimAll | database/seeders/SalesmanSeeder.php:61-66 | every field is trimmed, and none is added or lost |
| SeederParsing.DropEmpty | database/seeders/SalesmanSeeder.php:105 | the pieces kept are exactly the non-empty ones |
| SeederParsing.ParseTitles | database/seeders/SalesmanSeeder.php:95-108 | an empty() string gives null; otherwise a non-empty list of exactly the non-empty trimmed pieces, or null |
| SeederParsing.ParsedTitlesClean | database/seeders/SalesmanSeeder.php:101-107 | every parsed title is non-empty, trimmed and free of commas |
| SeederParsing.TrimNoNewChars | database/seeders/SalesmanSeeder.php:102 | trimming adds no character |
| SeederParsing.TrimIdempotent | database/seeders/SalesmanSeeder.php:102 | trimming twice is trimming once |
| SeederParsing.SplitJoin | database/seeders/SalesmanSeeder.php:102 | splitting the implosion of separator-free pieces gives the pieces back |
| SeederParsing.DropEmptyKeeps | database/seeders/SalesmanSeeder.php:105 | a list without empty pieces is kept whole |
| SeederParsing.ParseTitlesJoin | database/seeders/SalesmanSeeder.php:95-108 | parsing the comma-joined text of clean titles gives those titles back |
| SeederParsing.JoinNotEmpty | database/seeders/SalesmanSeeder.php:97-99 | joined text whose first title is not empty() is not empty() either |
| SeederParsing.ParseTitlesEmpty | database/seeders/SalesmanSeeder.php:97-107 | "", "0" and " , " all give null |
| SeederParsing.Combine | database/seeders/SalesmanSeeder.php:72 | array_combine has exactly the header's names as keys |
| SeederParsing.CombineLast | database/seeders/SalesmanSeeder.php:72 | a header name not repeated later maps to its own column |
| SeederParsing.ParseCsvSize | database/seeders/SalesmanSeeder.php:56-86 | fewer than two lines give no row; otherwise at most one row per data line |
| SeederParsing.DataRowsSize | database/seeders/SalesmanSeeder.php:65-86 | no more rows than data lines |
| SeederParsing.DataRowsAppend | database/seeders/SalesmanSeeder.php:65-86 | rows come in input order: the rows of two blocks of lines are concatenated |
| SeederParsing.DataRowsOne | database/seeders/SalesmanSeeder.php:66-85 | a line with the header's field count yields exactly its row; any other line is skipped |
| SeederParsing.RowOfKeys | database/seeders/SalesmanSeeder.php:72-83 | a row has the header's names plus the two title keys, phone and marital_status |
| SeederParsing.RowOfColumn | database/seeders/SalesmanSeeder.php:72 | a column named once, and not rewritten, holds its trimmed field |
| SeederParsing.RowOfTitles | database/seeders/SalesmanSeeder.php:75-79 | the title columns are parseTitles of their strings, the empty string when missing |
| SeederParsing.RowOfPhone | database/seeders/SalesmanSeeder.php:82 | phone is null exactly when its field is missing or empty(); any other value is kept as its string |
| SeederParsing.RowOfMaritalStatus | database/seeders/SalesmanSeeder.php:83 | marital_status is null exactly when its field is missing or empty(); any other value is kept as its string |
| SeederParsing.CombineStrings | database/seeders/SalesmanSeeder.php:72 | every value of a combined line is a string |
| Seeder.CombineRow | database/seeders/SalesmanSeeder.php:72-85 | the row built in place is the row function of the line |
| Seeder.ReadLine | database/seeders/SalesmanSeeder.php:66-85 | one iteration extends the rows with those of the next line |
| Seeder.ParseCsvFile | database/seeders/SalesmanSeeder.php:52-89 | the loop computes the parse function of the lines |

## Left out

- Reading the file (`file()` with FILE_SKIP_EMPTY_LINES), the seeder's `run()`, its transaction and the saving of the parsed rows are I/O. `Seeder.ParseCsvFile` takes the lines, with empty lines already dropped.
- PostgreSQL `ILIKE`: `%` and `_` in a search term are wildcards there, and case folding covers non-ASCII letters. The model matches plain substrings, lower-casing ASCII letters only.
- Collation: ORDER BY compares strings by code point here, not by the database collation. The order of rows with equal keys and the order without a sort are insertion order, which the database does not promise.
- UUID generation and the clock are parameters (`newId`, `now`). Timestamps are numbers, and their ISO-8601 text is not modelled.
- The e-mail checks (`filter_var` and Laravel's `email` rule) are predicates the caller supplies.
- `is_numeric`: exponent forms and fractions other than a plain decimal point are not modelled, and neither is PHP integer overflow in `(int)`.
- app/Http/Resources/SalesmanCollection.php (link building in the paginator) is not part of this model; the listing reply carries the page itself.
- The factory, routes, service provider, middleware (including Laravel's string trimming and empty-string conversion) and the interfaces are framework wiring.
- UpdateSalesmanRequest is not part of this model. `Controller.Update` takes its validated data as given.
- The handler's non-JSON path becomes a single `FrameworkDefault` value. `Handler.php` is modelled as written. The live path is the framework's handler with the two renderers from bootstrap/app.php, and it is not modelled. That path answers a failed validation with a 422 in Laravel's per-field format and other unexpected exceptions with the framework's 500 body.
- Controller.UnknownIdNotFound: keys are opaque strings. In the program the key column is a PostgreSQL `uuid`. A key that is not UUID-shaped makes the lookup and the delete query throw a QueryException ("invalid input syntax for type uuid"), which is answered 500. The model instead answers 404 for such keys. The lemma's 404 holds in the program only for well-formed UUIDs that are not stored.
- PHP arrays are modelled as lists of values (`PhpValues.Mixed.Arr`), so their keys are dropped. A JSON object sent as a title list therefore looks like a list. Validation and `fromArray` reach the same outcome either way. Only the keys of per-element validation errors would differ.
- The messages of the framework's exceptions, and of the TypeError for a non-string `sort`, are not modelled word for word.
- Concurrency: the race between the uniqueness checks and the write, and the database's unique indexes, are outside this single-threaded model.
- Eloquent model identity and aliasing: a fetched row is a value, and update passes the filled row back to the repository explicitly.
- A missing array key in `fromArray`'s input raises a PHP warning, which the framework's error handler turns into an `ErrorException`. The model reads the key as null instead. So input without `gender` or `first_name` fails in the model with the `InvalidArgumentException` for a non-string value, where the program throws the `ErrorException`. The handler answers both with 500.
- Repository.SalesmanRepository.Paginate: requires a page and page size of at least 1, because the controller always clamps them so. Smaller values, which the paginator would adjust, are not modelled.
- Service.SalesmanService.Paginate: the same requirement of a page and page size of at least 1.
- Query.PageOf: the same requirement of a page and page size of at least 1.
- CreateRequest.AcceptedInputParses: assumes ASCII names and Prosight id, an e-mail the record's check accepts and a marital status that is not a blank string. Without these, accepted input can still be rejected by the record, as `CreateRequest.NonAsciiProsightId` shows.
- Controller.StoreAccepted: the same assumptions as `CreateRequest.AcceptedInputParses`.
- Controller.IndexListing: assumes the `sort` parameter is absent, null or a string. Otherwise the service's typed parameter throws, which `Controller.Index` models as an unexpected exception.
