# Request-header validation of a mock HTTP server

This project models the header check of the `noir` mock-server test harness,
`validate_http_request_headers` in `src/resource/http/header.rs`, together
with `http_header_into_tuple`. A test declares headers it expects (name and
value) and names it wants absent; the check compares them with the headers the
server received and appends one error per failed check to the caller's error
list:

1. the expected headers are sorted by name;
2. each is looked up in the received headers: not found gives a "missing"
   error, found with a first raw line that differs byte for byte from the
   expected value gives a "does not match" error;
3. the absent-list is sorted in place;
4. each listed name that was received gives an "is present" error.

Files:

- `lex.dfy` (`Lex`): the order `str::cmp` puts on names (lexicographic over
  Unicode scalar values, which on UTF-8 agrees with byte order) and the proof
  that it is a total order.
- `sorting.dfy` (`Sorting`): insertion sort by a string key, standing for
  Rust's `sort_by` and `sort`; sortedness and permutation of the result;
  uniqueness of sorted arrangements (so no tie-break rule matters here);
  distinct keys surviving permutation.
- `header.dfy` (`Header`): the data model and the validator. Received headers
  are a `map<string, RawValues>` of non-empty lists of raw byte lines; expected
  headers are a sequence of `HttpHeader(name, value)` in the order the header
  collection iterates; errors are the datatype `HeaderError` with variants
  `Missing`, `ValueMismatch(name, expected, actual)` and `UnexpectedPresent`.
  The validator is the pure function `ValidateRequestHeaders`, which returns the
  extended error list and the sorted absent-list (the two things the source
  changes through `&mut`).
- `header_properties.dfy` (`HeaderProperties`): the lemmas about the validator.

In the source, the local variable `expected_value` (line 71) holds the received
header's raw lines and `actual_value` (line 72) holds the expected header's
rendered value; the message (lines 75-83) prints the expected header's value
after "expected:" and the received line after "but got:". The model names the
fields by role: `ValueMismatch.expected` is the expected header's value,
`ValueMismatch.actual` the first received raw line.

## Model

| member | source | states |
|---|---|---|
| Header.IntoTuple | src/resource/http/header.rs:52-54 | the pair holds the header's name and value unchanged: rebuilding a header from it gives the original |
| Header.CheckExpected | src/resource/http/header.rs:70-99 | one expected header yields at most one error; none exactly when a header of that name was received with an equal first raw line; any error is the missing or mismatch error that header is owed |
| Header.ValidateRequestHeaders | src/resource/http/header.rs:56-121 | the incoming errors are an unchanged prefix of the result; the number of errors added is at most the number of expected headers plus the number of absent-list entries; the returned absent-list is a sorted permutation of the given one |
| Header.ExpectedErrors | src/resource/http/header.rs:70-100 | checking a list of expected headers adds at most one error per header |
| Header.AbsentErrors | src/resource/http/header.rs:105-119 | checking an absent-list adds at most one error per entry |
| Sorting.Insert | src/resource/http/header.rs:64-68 | inserting into a sorted sequence keeps it sorted and adds exactly the one element |
| Sorting.SortBy | src/resource/http/header.rs:64-68 | the result is sorted by the key and is a permutation of the input |
| Sorting.SortedUnique | src/resource/http/header.rs:64-68 | two sorted arrangements of the same elements are equal when no two different elements share a key, so the sorted order does not depend on arrival order |
| Sorting.DistinctKeysPermutation | src/resource/http/header.rs:65 | rearranging headers with distinct names keeps the names distinct |
| Sorting.DistinctKeysInjective | src/resource/http/header.rs:65 | with distinct names, a name identifies its header |
| Sorting.DistinctKeysAtMostOnce | src/resource/http/header.rs:65 | with distinct names, no header occurs twice |
| Lex.LeReflexive | src/resource/http/header.rs:66-68 | every name sorts with itself |
| Lex.LeAntisymmetric | src/resource/http/header.rs:66-68 | two names that sort before each other are equal |
| Lex.LeTransitive | src/resource/http/header.rs:66-68 | the name order is transitive |
| Lex.LeTotal | src/resource/http/header.rs:66-68 | any two names are ordered one way or the other |
| HeaderProperties.ExpectedErrorsSound | src/resource/http/header.rs:70-99 | every expected-phase error is owed by one of the checked headers: it is missing, or its first raw line differs and the error carries both values |
| HeaderProperties.ExpectedErrorsComplete | src/resource/http/header.rs:70-99 | every checked header that is not received with an equal first raw line gets its error |
| HeaderProperties.ExpectedErrorsEmptyIff | src/resource/http/header.rs:70-99 | the expected phase adds nothing exactly when every checked header is received with an equal first raw line |
| HeaderProperties.ExpectedErrorsAscending | src/resource/http/header.rs:64-99 | checking sorted headers with distinct names yields errors in strictly ascending name order |
| HeaderProperties.ExpectedErrorsKinds | src/resource/http/header.rs:70-99 | the expected phase only pushes missing and mismatch errors |
| HeaderProperties.ExpectedErrorsSilent | src/resource/http/header.rs:70-99 | a header is received with an equal first raw line exactly when no expected-phase error names it |
| HeaderProperties.AbsentErrorsSound | src/resource/http/header.rs:105-119 | every absent-phase error is an "is present" error for a listed name that was received |
| HeaderProperties.AbsentErrorsCount | src/resource/http/header.rs:105-119 | each listed name, duplicates included, yields one "is present" error per occurrence when received and none otherwise |
| HeaderProperties.AbsentErrorsAscending | src/resource/http/header.rs:102-119 | a sorted absent-list yields its errors in ascending name order |
| HeaderProperties.AbsentErrorsEmptyIff | src/resource/http/header.rs:105-119 | the absent phase adds nothing exactly when no listed name was received |
| HeaderProperties.PhaseOrder | src/resource/http/header.rs:70-119 | errors of the first loop all precede those of the second, and the second loop's errors keep their ascending order |
| HeaderProperties.ValidateProvenance | src/resource/http/header.rs:56-121 | every appended error comes from one of the three pushes: an expected header owed it, or it names a listed absent header that was received |
| HeaderProperties.ValidatePhases | src/resource/http/header.rs:70-119 | all expected-header errors come before all "is present" errors, and the latter ascend by name |
| HeaderProperties.ValidateExpectedAscending | src/resource/http/header.rs:64-99 | with distinct expected names, expected-header errors strictly ascend by name, so each header has at most one |
| HeaderProperties.ValidateExpectedVerdict | src/resource/http/header.rs:70-99 | an expected header is reported missing exactly when its name was not received, and as a mismatch (with its value and the first raw line) exactly when the first raw line differs byte for byte |
| HeaderProperties.CarriedHeaderSilent | src/resource/http/header.rs:70-99 | with distinct expected names, no expected-phase error names a header exactly when it is received with an equal first raw line |
| HeaderProperties.AbsentListVerdict | src/resource/http/header.rs:102-119 | each absent-list entry, duplicates included, yields exactly one "is present" error when the name was received and none otherwise |
| HeaderProperties.ValidatePassIff | src/resource/http/header.rs:70-119 | nothing is appended exactly when every expected header is received with an equal first raw line and no absent-listed name is received |
| HeaderProperties.ValidateOrderIndependent | src/resource/http/header.rs:64-103 | any rearrangement of the expected headers or of the absent-list gives the same errors and the same sorted absent-list |
| HeaderProperties.ResortingChangesNothing | src/resource/http/header.rs:102-103 | passing the sorted absent-list back in leaves it and the errors unchanged |
| HeaderProperties.ExpectedErrorsAgree | src/resource/http/header.rs:71-73 | the expected phase sees the received headers only through presence and first raw line of the checked names |
| HeaderProperties.AbsentErrorsAgree | src/resource/http/header.rs:106 | the absent phase sees the received headers only through presence of the listed names |
| HeaderProperties.ValidateDependsOnMentionedOnly | src/resource/http/header.rs:70-119 | two received collections that agree on the mentioned names give the same outcome |
| HeaderProperties.OnlyFirstLineCompared | src/resource/http/header.rs:73 | raw lines after the first under a name never change the outcome |
| HeaderProperties.UnmentionedIgnored | src/resource/http/header.rs:70-119 | adding, replacing or removing a received header that neither set names never changes the outcome |
| HeaderProperties.MissingReportedInNameOrder | src/resource/http/header.rs:64-99 | expected headers `B` then `A`, both missing, are reported `A` first |

## Left out

- Message text, ANSI colouring and the `context` prefix (header.rs:75-117): errors are structured values carrying the name and the two byte strings the messages print.
- `HttpHeader::from` (header.rs:35-49): it relies on hyper's `Headers`/`Header` machinery, which is not part of this model; an `HttpHeader` is taken as given.
- hyper's case-insensitive lookup: received names are taken as already normalised, so lookup is exact map membership.
- hyper's `value_string()` rendering of an expected header: the expected value is taken as the byte sequence it renders to.
- The `String::from_utf8(...).unwrap()` panic (header.rs:74) when a mismatching received line is not UTF-8: it only concerns message rendering; the model reports the mismatch with the raw bytes.
- An empty raw-line list for a received header, on which `[0]` would panic: the header store never keeps one, and `RawValues` excludes it by type.
- Expected headers that share a name: a header collection cannot hold two, so the lemmas that need distinct names require `DistinctNames`; the validator itself accepts any sequence.
- A name in both the expected set and the absent-list is not treated specially; the model, like the source, runs both checks.
- The multipart form, JSON and body comparisons exercised by `tests/form.rs` are not part of this model.
