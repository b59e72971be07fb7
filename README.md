# craft-plugin-list, modelled in Dafny

The `craft-plugin-list` console command asks packagist.org for every package
of type `craft-plugin` and fetches each package's detail in listing order. It
keeps the packages that are not abandoned and whose latest version names a
Craft plugin `handle`, up to `--limit` of them. For each kept package it
builds a `CraftPluginPackage` record, sorts the records by `--orderBy` in
`--order` direction, and then either prints them as a table or writes them to
the JSON file named by `--output`.

This project models that command, `CraftPluginListCommand::execute`, and the
`CraftPluginPackage` record with its JSON serialisation. It has these modules:

- `PhpStrings`: the PHP built-ins the command relies on. These are `strcmp`,
  the decimal form of an integer, the integer part of `is_numeric`,
  `strtolower`, `substr($s, -n)`, and truthiness of an optional string.
- `CraftPluginPackage`: the record, `jsonSerialize`, and the `Y-m-d H:i:s`
  layout of the `updated` date, each with a decoder and a round-trip proof.
- `Options`: the four option checks, in the source's order and with its
  messages.
- `Records`: the decoded package detail, choosing the latest version, finding
  the test library, and deciding whether a package is kept.
- `Dataset`: the fetch loop as an imperative method. It is proved against the
  recursive specification `Run` and the limit-free list `Eligibles`.
- `Sorting`: the `usort` comparator and an in-place insertion sort on an
  array. The sort is proved to order the records and to be a permutation.
- `Command`: the whole of `execute`, with its exit code, error messages and
  destination.

Network answers are parameters:

- The listing request is an `Option<seq<string>>`. `None` means the request
  threw an exception: a connection error or an HTTP error status.
- Each detail request is a function `fetch: string -> Fetch`. `FetchFailed`
  likewise means that the request threw.

Timestamps are integers. The time-zone conversion done by `DateTime` is a
parameter `localTime: int -> DateTimeValue`.

Three details of the source shape the model:

- The progress bar advances once per record pushed, not once per package
  looked at. A skipped package reaches `continue` first, so it never advances
  the bar.
  The bar itself is left out.
- Sorting by `updated` passes two integer timestamps to `strcmp`. PHP turns
  them into decimal strings, so timestamps are compared as text, exactly like
  the other integer fields.
- The test library is the first `require-dev` key, in the map's own order,
  that appears in the list of eleven frameworks. The order of that list does
  not matter; only set membership counts.

Sorting integers as text is kept on purpose. `Sorting.DownloadsOrderedAsText`
shows that ascending download counts 20, 3000, 500 count as ordered, and that
20, 500, 3000 do not.

## Model

| member | source | states |
|---|---|---|
| PhpStrings.Strcmp | src/Commands/CraftPluginListCommand.php:168-171 | `strcmp` returns -1, 0 or 1, and returns 0 exactly when the two strings are equal; `StrcmpLess` states that the order is byte-wise lexicographic |
| PhpStrings.StrcmpAntisymmetric | src/Commands/CraftPluginListCommand.php:168-171 | swapping the arguments of `strcmp` negates its result |
| PhpStrings.StrcmpTransitive | src/Commands/CraftPluginListCommand.php:168-171 | `strcmp` order is transitive: a <= b and b <= c give a <= c |
| PhpStrings.StrcmpLess | src/Commands/CraftPluginListCommand.php:168-171 | `strcmp(a, b)` is negative exactly when, after a common prefix, `a` ends while `b` goes on or `a` has the smaller character: byte-wise lexicographic order, so "3000" comes before "500" |
| PhpStrings.NatToString | src/Commands/CraftPluginListCommand.php:168 | the decimal form of a natural number is non-empty, all digits, and has no leading zero unless it is "0" |
| PhpStrings.NatToStringRoundTrip | src/Commands/CraftPluginListCommand.php:168 | reading back the decimal form of n gives n |
| PhpStrings.IntToString | src/Commands/CraftPluginListCommand.php:168-171 | PHP's conversion of an `int` to a string is non-empty, starts with a minus sign exactly for negative numbers, and is otherwise all digits, so never a plus sign; its first digit is 0 only for the number 0 |
| PhpStrings.IsNumeric | src/Commands/CraftPluginListCommand.php:58 | a numeric string is non-empty and ends in a digit; it begins with a digit or a sign; every non-empty digit string is numeric |
| PhpStrings.NumericValue | src/Commands/CraftPluginListCommand.php:58 | the number a numeric string denotes is at most 0 when it starts with a minus sign and at least 0 otherwise |
| PhpStrings.IntToStringRoundTrip | src/Commands/CraftPluginListCommand.php:58 | the decimal form of any integer passes `is_numeric`, and its numeric value is that integer |
| PhpStrings.IntToStringInjective | src/Commands/CraftPluginListCommand.php:171 | distinct integers have distinct decimal forms, so the comparator returns 0 only for equal integer fields |
| PhpStrings.ToLower | src/Commands/CraftPluginListCommand.php:69 | `strtolower` keeps the length, and each character of the result is `LowerChar` of the character at the same place, which lowers ASCII capitals and keeps everything else |
| PhpStrings.ToLowerIgnoresCase | src/Commands/CraftPluginListCommand.php:69 | lower-casing an upper-cased or lower-cased string gives the same result as lower-casing the original |
| PhpStrings.Truthy | src/Commands/CraftPluginListCommand.php:76 | an optional string is truthy only when present and non-empty; every string of two or more characters is truthy; a one-character string is truthy exactly when it is not "0" |
| PhpStrings.SubstrTail | src/Commands/CraftPluginListCommand.php:76 | `substr($s, -n)` is the last n characters, or the whole string when it is shorter than n |
| CraftPluginPackage.FormatDateTime | src/Models/CraftPluginPackage.php:36 | the `Y-m-d H:i:s` text is at least 19 characters long; `DateTimeRoundTrip` states that it parses back to the same date-time |
| CraftPluginPackage.DateTimeRoundTrip | src/Models/CraftPluginPackage.php:36 | parsing the `Y-m-d H:i:s` text of any valid date-time gives back that date-time, so the text loses nothing |
| CraftPluginPackage.ClockRoundTrip | src/Models/CraftPluginPackage.php:36 | the `-m-d H:i:s` part has its separators at fixed places and two-digit fields that read back as month, day, hour, minute and second |
| CraftPluginPackage.YearRoundTrip | src/Models/CraftPluginPackage.php:36 | the `Y` part has at least four digits and reads back as the year |
| CraftPluginPackage.JsonSerialize | src/Models/CraftPluginPackage.php:24-38 | the serialised object has exactly the ten keys `name` … `updated`, in that order |
| CraftPluginPackage.SerializeRoundTrip | src/Models/CraftPluginPackage.php:24-38 | decoding the serialised object gives back every field of the record, with null fields still null and `updated` as its formatted local time |
| Options.ParseOrderBy | src/Commands/CraftPluginListCommand.php:63-67 | `orderBy` is accepted exactly when it is one of the five allowed names, and resolves to the field with that name |
| Options.ParseOrder | src/Commands/CraftPluginListCommand.php:69-73 | `order` resolves to ascending exactly when its lower-cased form is `asc`, to descending exactly when it is `desc`, and is rejected otherwise |
| Options.ParseOrderIgnoresCase | src/Commands/CraftPluginListCommand.php:69-73 | the `order` check gives the same answer whatever the letter case of the option |
| Options.LimitOk | src/Commands/CraftPluginListCommand.php:58 | a limit that passes is numeric and has no minus sign; an unsigned numeric limit passes exactly when one of its digits is not zero |
| Options.LimitOfInt | src/Commands/CraftPluginListCommand.php:57-61 | a limit written as a decimal integer passes exactly when it is at least 1 |
| Options.OutputOk | src/Commands/CraftPluginListCommand.php:75-79 | `output` passes exactly when it is falsy or ends with `.json` |
| Options.Validate | src/Commands/CraftPluginListCommand.php:57-79 | each of the four error messages is returned exactly when its check fails and every earlier check passes; the result is one of these four errors or success, so it succeeds exactly when all four checks pass; on success the limit, field, direction and output are the parsed options |
| Options.RejectedLimitScenarios | tests/Unit/CraftPluginListCommandTest.php:43-79 | the limits `five` and `-5` fail with "Invalid limit option" |
| Options.RejectedOptionScenarios | tests/Unit/CraftPluginListCommandTest.php:81-136 | `version` as orderBy, `dasc` as order and `output_file.txt` as output each fail with their own message |
| Options.AcceptedScenarios | tests/Unit/CraftPluginListCommandTest.php:138-149 | limit 1, orderBy `dependents`, order `asc` (here written `ASC`) and output `tests/output_file.json` pass as those options, and so do the defaults |
| Records.LatestIndex | src/Commands/CraftPluginListCommand.php:116-122 | the latest version exists exactly when there are versions; its time is at least every version's time and strictly later than every earlier version's, so ties keep the first |
| Records.SelectLatestVersion | src/Commands/CraftPluginListCommand.php:116-122 | the loop over the versions finds the index `LatestIndex` describes |
| Records.LatestOfThree | src/Commands/CraftPluginListCommand.php:119 | of versions listed as 2020, 2022, 2021, the second one, from 2022, is latest |
| Records.HandleOf | src/Commands/CraftPluginListCommand.php:128 | a version has a handle exactly when it has `extra` and `extra` has a handle, and the handle is that one |
| Records.FirstTestLibrary | src/Commands/CraftPluginListCommand.php:130-139 | the test library is null exactly when no `require-dev` key is a known framework; otherwise it is the first key, in dependency order, that is one |
| Records.FindTestLibrary | src/Commands/CraftPluginListCommand.php:130-139 | the loop with `break` returns the library `FirstTestLibrary` describes, and null when `require-dev` is missing |
| Records.TestLibraryOf | src/Commands/CraftPluginListCommand.php:131-139 | with no `require-dev` there is no test library; a test library found is a known framework and a key of `require-dev` |
| Records.TestLibraryFollowsDependencyOrder | src/Commands/CraftPluginListCommand.php:133-137 | with `kahlan/kahlan` listed before `phpunit/phpunit`, the test library is `kahlan/kahlan` |
| Records.IsAbandoned | src/Commands/CraftPluginListCommand.php:125 | an unset `abandoned` does not count; a boolean counts when true; a replacement package name counts when it has two or more characters and does not count when it is "" or "0" |
| Records.Accept | src/Commands/CraftPluginListCommand.php:124-128 | a package is kept exactly when it has a latest version, is not abandoned, and that version has a handle |
| Records.AcceptedRecord | src/Commands/CraftPluginListCommand.php:116-156 | a kept record copies name, description, repository, monthly downloads, dependents and favers from the detail; its `updated` is the latest version time; its version, handle and test library come from the first version with that time, as the strict comparison of the scan chooses; any test library is a known framework |
| Dataset.Run | src/Commands/CraftPluginListCommand.php:102-159 | the loop issues at most one detail request per listed name |
| Dataset.RunFromStartTakesEligibles | src/Commands/CraftPluginListCommand.php:102-159 | a run that does not abort yields the first `limit` kept records, in listing order |
| Dataset.RunTakesEligibles | src/Commands/CraftPluginListCommand.php:102-159 | resumed with records already pushed, a run that does not abort appends the next kept records up to the limit |
| Dataset.BuiltCount | src/Commands/CraftPluginListCommand.php:102-104 | a run that does not abort keeps min(limit, number of eligible listed packages) records |
| Dataset.RunAbortsIff | src/Commands/CraftPluginListCommand.php:107-114 | the run aborts exactly when some listed name's request fails while fewer than `limit` records were kept before it |
| Dataset.RunRequests | src/Commands/CraftPluginListCommand.php:102-114 | a request is issued only while fewer than `limit` records are kept; only an aborting last request fails; a run that stops before the end of the listing stops because the limit was reached |
| Dataset.EligiblesComeFromAccepted | src/Commands/CraftPluginListCommand.php:141-156 | every kept record is the record built from the detail of some listed name whose request succeeded |
| Dataset.MakeRecord | src/Commands/CraftPluginListCommand.php:116-156 | the method that runs both version loops returns the record `Accept` describes, or nothing for a skipped package |
| Dataset.Visit | src/Commands/CraftPluginListCommand.php:106-156 | one round requests the detail of a name, reports whether the request succeeded, and pushes that name's record exactly when the package is kept |
| Dataset.BuildPackages | src/Commands/CraftPluginListCommand.php:102-159 | the loop's outcome is the outcome of `Run`; the names requested are the first `Run` requests of the listing; the records kept are the first `limit` kept records |
| Sorting.SortKey | src/Commands/CraftPluginListCommand.php:167-171 | an integer field and the `updated` timestamp compare as their decimal text, exactly `IntToString` of the integer, which reads back as the integer; a test library compares as itself, and null compares as "" |
| Sorting.Compare | src/Commands/CraftPluginListCommand.php:166-175 | the comparator returns -1, 0 or 1, and returns 0 exactly when the two sort keys are equal |
| Sorting.CompareAntisymmetric | src/Commands/CraftPluginListCommand.php:174 | swapping two records negates the comparator, in both directions |
| Sorting.CompareTransitive | src/Commands/CraftPluginListCommand.php:166-175 | the comparator's order is transitive in both directions |
| Sorting.AdjacentOrderedByStrcmp | src/Commands/CraftPluginListCommand.php:166-175 | neighbours are ordered exactly when, under `asc`, `strcmp` of their keys is at most 0, and under `desc` at least 0 |
| Sorting.AdjacentToOrdered | src/Commands/CraftPluginListCommand.php:166-175 | when each record compares at most equal to the next, every record compares at most equal to every later one |
| Sorting.DownloadsOrderedAsText | src/Commands/CraftPluginListCommand.php:171 | ascending by downloads, 20, 3000, 500 is ordered and 20, 500, 3000 is not |
| Sorting.InsertDown | src/Commands/CraftPluginListCommand.php:166 | one insertion step extends the sorted prefix of the array by one element, permutes the array, and leaves the elements after that prefix as they were |
| Sorting.Usort | src/Commands/CraftPluginListCommand.php:166 | `usort` with a comparator that is antisymmetric and transitive, as PHP requires, leaves the array sorted by it and a permutation of what it was |
| Sorting.SortPackages | src/Commands/CraftPluginListCommand.php:165-176 | after the sort step, every record compares at most equal to every later one by the chosen field and direction, and the records are a permutation of those before |
| Command.DestinationOf | src/Commands/CraftPluginListCommand.php:182-197 | records go to a JSON file exactly when `output` is truthy, and the file is the one it names; otherwise they go to the terminal table |
| Command.Execute | src/Commands/CraftPluginListCommand.php:52-201 | exit code 0 exactly on success. A failed option check fails with its message and no requests. A failed listing or detail request fails with "Something went wrong". Otherwise the result is a permutation of the first `limit` kept records, ordered by the chosen field and direction, sent to the chosen destination |

## Left out

- HTTP and JSON decoding: Guzzle requests and `json_decode` of the listing and the details are abstracted. The listing is an optional list of names; each detail is a `Fetch` value that holds the decoded package or stands for an exception thrown by the request.
- Malformed response bodies are not modelled. `json_decode` returns null on bad JSON without throwing, and reading a property of null is only a warning, so the `catch` blocks do not run. With no error handler installed, a malformed listing acts as `Some([])`: the loop is skipped and the run succeeds with no records. A malformed detail acts as a fetched detail with no versions, which is skipped. Where warnings are turned into exceptions, both would fail the run instead.
- Output rendering: the terminal table, `writeln`, `echo`, `json_encode` with pretty printing, and `file_put_contents` are left out. The model stops at the sorted records and their destination. The JSON field values and table row values of a record are modelled by `JsonSerialize` and `RowOf`.
- Progress bar: it only affects the display, so it is left out.
- `strtotime`: version times are integer timestamps. An unparsable time string (`false` in PHP) is not modelled.
- Time zones: the conversion of a timestamp to local date and time by `DateTime` is a parameter. Only the `Y-m-d H:i:s` layout is modelled.
- Options.LimitOk: `is_numeric` covers only optionally signed decimal integers. Fractions, exponents, and leading or trailing whitespace are not modelled, so a limit such as "2.5" is rejected in the model although PHP accepts it.
- PhpStrings.ToLower: ASCII letters only. Locale-dependent lower-casing is not modelled.
- Sorting.Usort: stability is not stated, although PHP 8's `usort` keeps records with equal keys in listing order. The contract says only that the result is sorted and is a permutation; the insertion sort happens to be stable.
- Sorting.SortPackages: the order of records with equal keys is not stated, for the same reason as `Sorting.Usort`.
- Command.Execute: the order of records with equal keys is not stated, for the same reason as `Sorting.Usort`.
- The bootstrap script `craft-plugin-list.php` is not part of this model. The command's `use` of the record class names the namespace `Fr\CraftPluginList\Models`, while the class declares `Fortrabbit\CraftPluginList\Models`; class loading is not modelled, and the model treats both names as the same class.
- Command.Execute: PHP's integer width is not modelled. A limit above PHP_INT_MAX, such as 9223372036854775808, passes the checks at line 58, but passing it to `new ProgressBar` at line 84 throws a TypeError outside any `try`, so the command fails. The model accepts such a limit and `Execute` promises a successful listing.
- Exceptions other than a failed request, such as a type error from a missing `repository` or `downloads` field, are not modelled. The decoded detail always has those fields.
