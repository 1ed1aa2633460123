# Student service: validator and record endpoints

This is a Dafny model of the logic in the student service's
`StudentController`. It has two parts.

- **The validator** (`checkStudent`). It runs five checks on a student record
  and runs all of them every time:
  - first-name length is within 3..50;
  - last-name length is within 3..50;
  - the birthday is strictly before the current time;
  - the phone matches `(\+\d{2})? *\d{3} *\d{3} *\d{2} *\d{2}$`;
  - the email matches `\w+@\w+\.\w+`.

  Each failing check appends a fixed fragment to the message. An empty
  message means the record is valid.
- **The four per-record endpoints.** These are find by id, create, update
  and delete. Each is a pure function from a store to a response and the
  store it leaves behind.

The model has these modules:

- **`Optional`** is an option type.
- **`Text`** holds the character classes of Java's default `\d` (ASCII
  digits) and `\w` (ASCII letters, digits, underscore). It also holds greedy
  runs and the decimal rendering of ids, with a parser that reads them back.
- **`Phone`** and **`Email`** are hand-written recognizers. Each pattern is
  applied with `Pattern.matches`, so it must match the whole input. The
  trailing `$` of the phone pattern therefore changes nothing.
  - Each recognizer returns the pieces it found (`Split`).
  - Each is proved equal to a declarative reading of its pattern
    (`MatchesPattern`: some well-formed piece list renders to the input).
  - Each has a round trip: it reads any rendering back into its pieces.
- **`Report`** is a message built by appending, in a fixed key order, the
  text a table gives each selected key. It also reads such a message back.
  When no text is empty and none starts another, the reading is unique.
- **`Validator`** is `checkStudent`:
  - the clock is a parameter `now`;
  - dates are integers (milliseconds since the epoch, which is what
    `Date.compareTo` compares);
  - `Valid` is the declarative statement of the five rules.
- **`Controller`** holds the four endpoints over `map<int, Student>`, with
  the response datatype `Ok | Created | BadRequest(title, detail)`.

## Model

| member | source | states |
|---|---|---|
| Text.LeadingSpaces | rest-api-demo/student-service/src/main/java/org/itstep/studentservice/api/StudentController.java:146 | what a greedy ` *` consumes: a run of spaces followed by a non-space or the end |
| Text.LeadingWordChars | rest-api-demo/student-service/src/main/java/org/itstep/studentservice/api/StudentController.java:153 | what a greedy `\w+` consumes: a run of word characters followed by a non-word character or the end |
| Text.LeadingSpacesOfSpaces | rest-api-demo/student-service/src/main/java/org/itstep/studentservice/api/StudentController.java:146 | `n` spaces before a non-space are consumed exactly, so the group gaps are read back |
| Text.LeadingWordCharsOfWord | rest-api-demo/student-service/src/main/java/org/itstep/studentservice/api/StudentController.java:153 | a word before a non-word character is consumed exactly |
| Text.NatToDecimal | rest-api-demo/student-service/src/main/java/org/itstep/studentservice/api/StudentController.java:48 | the rendering of a number is a non-empty string of digits with no leading zero, starting with `0` only for zero, as `Integer.toString` writes it |
| Text.DecimalRoundTrip | rest-api-demo/student-service/src/main/java/org/itstep/studentservice/api/StudentController.java:48 | reading the digits of `n` gives back `n` |
| Text.IntRoundTrip | rest-api-demo/student-service/src/main/java/org/itstep/studentservice/api/StudentController.java:48 | the `%s` rendering of any id, negative ones included, parses back to that id |
| Text.CanonicalRoundTrip | rest-api-demo/student-service/src/main/java/org/itstep/studentservice/api/StudentController.java:48 | every digit string without a leading zero is the rendering of its own value |
| Text.ParseIntExact | rest-api-demo/student-service/src/main/java/org/itstep/studentservice/api/StudentController.java:48 | the parser accepts only renderings: a text read as `n` is exactly the rendering of `n`, so zero-padded forms and `-0` are refused |
| Text.IntToDecimal | rest-api-demo/student-service/src/main/java/org/itstep/studentservice/api/StudentController.java:48 | the `%s` rendering of an id as `Integer.toString` writes it: a leading `-` exactly for negative ids, then a digit string with no leading zero, so `-0` never appears |
| Phone.SplitGroups | rest-api-demo/student-service/src/main/java/org/itstep/studentservice/api/StudentController.java:146 | an accepted tail is exactly some spaces and then `\d{k}` for each prescribed size, with nothing left over |
| Phone.SplitAfterPlus | rest-api-demo/student-service/src/main/java/org/itstep/studentservice/api/StudentController.java:146 | the `\+\d{2}` branch: what it accepts is `+`, two digits and well-formed groups |
| Phone.Split | rest-api-demo/student-service/src/main/java/org/itstep/studentservice/api/StudentController.java:146-147 | whatever the recognizer accepts renders back from a well-formed optional country code and 3/3/2/2 digit groups |
| Phone.RenderGroupsStart | rest-api-demo/student-service/src/main/java/org/itstep/studentservice/api/StudentController.java:146 | the groups never start with `+`, so the two branches of the optional prefix cannot both apply |
| Phone.SplitGroupsRender | rest-api-demo/student-service/src/main/java/org/itstep/studentservice/api/StudentController.java:146 | any well-formed groups, with any gaps, are read back into exactly those groups |
| Phone.SplitRender | rest-api-demo/student-service/src/main/java/org/itstep/studentservice/api/StudentController.java:146-147 | every string of the pattern is accepted and split into the pieces it was built from |
| Phone.IsPhoneCorrect | rest-api-demo/student-service/src/main/java/org/itstep/studentservice/api/StudentController.java:146-150 | the phone check passes exactly for the strings the pattern describes, both directions |
| Phone.IsPhone | rest-api-demo/student-service/src/main/java/org/itstep/studentservice/api/StudentController.java:147 | the `Pattern.matches` call on the phone: every accepted string is a string of the pattern (`IsPhoneCorrect` adds the converse) |
| Phone.AcceptsTenDigits | rest-api-demo/student-service/src/main/java/org/itstep/studentservice/api/StudentController.java:146-147 | any ten ASCII digits with no spaces are a phone |
| Phone.AcceptsSpacedPlain | rest-api-demo/student-service/src/main/java/org/itstep/studentservice/api/StudentController.java:146-147 | ten digits with one space between the 3/3/2/2 groups are a phone |
| Phone.AcceptsSpacedInternational | rest-api-demo/student-service/src/main/java/org/itstep/studentservice/api/StudentController.java:146-147 | `+dd` and four groups, each after one space, are a phone |
| Phone.AcceptsSampleInternational | rest-api-demo/student-service/src/main/java/org/itstep/studentservice/api/StudentController.java:146-147 | `+38 099 123 45 67` is accepted |
| Phone.AcceptsSampleSpaced | rest-api-demo/student-service/src/main/java/org/itstep/studentservice/api/StudentController.java:146-147 | `099 123 45 67` is accepted |
| Phone.AcceptsSamplePlain | rest-api-demo/student-service/src/main/java/org/itstep/studentservice/api/StudentController.java:146-147 | `0991234567` is accepted |
| Phone.RejectsDash | rest-api-demo/student-service/src/main/java/org/itstep/studentservice/api/StudentController.java:146-150 | `099-123-45-67` is rejected, because only spaces may separate the groups |
| Email.WordThen | rest-api-demo/student-service/src/main/java/org/itstep/studentservice/api/StudentController.java:153 | an accepted prefix is a non-empty word immediately followed by the separator |
| Email.Split | rest-api-demo/student-service/src/main/java/org/itstep/studentservice/api/StudentController.java:153-154 | whatever the recognizer accepts is `word@word.word` for three non-empty words |
| Email.SplitRender | rest-api-demo/student-service/src/main/java/org/itstep/studentservice/api/StudentController.java:153-154 | every `word@word.word` is accepted and split into its three words |
| Email.IsEmailCorrect | rest-api-demo/student-service/src/main/java/org/itstep/studentservice/api/StudentController.java:153-157 | the email check passes exactly for the strings of the pattern, both directions |
| Email.IsEmail | rest-api-demo/student-service/src/main/java/org/itstep/studentservice/api/StudentController.java:154 | the `Pattern.matches` call on the email: every accepted string is a string of the pattern (`IsEmailCorrect` adds the converse) |
| Email.AcceptsSimple | rest-api-demo/student-service/src/main/java/org/itstep/studentservice/api/StudentController.java:153-154 | `a@b.co` is accepted |
| Email.RejectsDottedLocalPart | rest-api-demo/student-service/src/main/java/org/itstep/studentservice/api/StudentController.java:153-154 | `a.b@c.d` is rejected: no dot before the `@` |
| Email.RejectsTwoDotsInDomain | rest-api-demo/student-service/src/main/java/org/itstep/studentservice/api/StudentController.java:153-154 | `a@b.c.d` is rejected: exactly one dot after the `@` |
| Report.ConcatAppend | rest-api-demo/student-service/src/main/java/org/itstep/studentservice/api/StudentController.java:125-158 | appending the fragments of two runs of checks is the report of both runs |
| Report.ReadFrom | rest-api-demo/student-service/src/main/java/org/itstep/studentservice/api/StudentController.java:125-158 | a message that is read back is exactly the concatenation of the keys read |
| Report.ReadConcat | rest-api-demo/student-service/src/main/java/org/itstep/studentservice/api/StudentController.java:125-158 | with unambiguous fragments, a report over any ordered selection reads back as exactly that selection |
| Validator.PassesCases | rest-api-demo/student-service/src/main/java/org/itstep/studentservice/api/StudentController.java:126-156 | each check passes under exactly the negation of the source's failure condition |
| Validator.CheckStudent | rest-api-demo/student-service/src/main/java/org/itstep/studentservice/api/StudentController.java:123-161 | the message built by the five appends is the concatenation of the fragments of the failing checks, in the fixed check order |
| Validator.AppendChain | rest-api-demo/student-service/src/main/java/org/itstep/studentservice/api/StudentController.java:125-158 | the five conditional appends, run in order on the empty message, add up to the fragments of exactly the failing checks |
| Validator.JoinFailing | rest-api-demo/student-service/src/main/java/org/itstep/studentservice/api/StudentController.java:125-158 | joining the failing checks equals letting every check contribute its fragment or nothing |
| Validator.FailingAmongMembers | rest-api-demo/student-service/src/main/java/org/itstep/studentservice/api/StudentController.java:126-158 | a check is listed as failing exactly when it runs and fails; none is skipped |
| Validator.FailingAmongOrdered | rest-api-demo/student-service/src/main/java/org/itstep/studentservice/api/StudentController.java:126-158 | the failing checks appear in the order the checks run |
| Validator.CheckStudentEmptyIffValid | rest-api-demo/student-service/src/main/java/org/itstep/studentservice/api/StudentController.java:125-160 | the message is empty exactly when both names have 3..50 characters, the birthday is before `now`, and phone and email match their patterns |
| Validator.FragmentsUnambiguous | rest-api-demo/student-service/src/main/java/org/itstep/studentservice/api/StudentController.java:127-157 | no fragment is empty and none starts another, so a message has one reading |
| Validator.Fragment | rest-api-demo/student-service/src/main/java/org/itstep/studentservice/api/StudentController.java:127-157 | the five appended texts, character for character as in the source; each is non-empty, and every one but the email text ends in the `, ` separator |
| Validator.Diagnose | rest-api-demo/student-service/src/main/java/org/itstep/studentservice/api/StudentController.java:126-158 | a message read back is exactly the fragments of the checks read, in order |
| Validator.DiagnoseCheckStudent | rest-api-demo/student-service/src/main/java/org/itstep/studentservice/api/StudentController.java:126-158 | every message reads back as exactly the failing checks in check order: no short-circuit, no repeats |
| Validator.ReportedIffFails | rest-api-demo/student-service/src/main/java/org/itstep/studentservice/api/StudentController.java:126-158 | a check is named in the message exactly when the record fails it |
| Validator.SingleViolation | rest-api-demo/student-service/src/main/java/org/itstep/studentservice/api/StudentController.java:126-158 | if only one check fails, the message is exactly its fragment |
| Validator.AllViolations | rest-api-demo/student-service/src/main/java/org/itstep/studentservice/api/StudentController.java:126-158 | if every check fails, the message is all five fragments in check order |
| Validator.BirthdayBoundary | rest-api-demo/student-service/src/main/java/org/itstep/studentservice/api/StudentController.java:136-144 | the birthday is reported exactly when it is at or after `now`, so a birthday equal to `now` is rejected |
| Validator.ValidIgnoresId | rest-api-demo/student-service/src/main/java/org/itstep/studentservice/api/StudentController.java:123-161 | validity does not depend on the record's id |
| Validator.ShortFirstNameOnly | rest-api-demo/student-service/src/main/java/org/itstep/studentservice/api/StudentController.java:126-128 | `Al Smith`, born 2000-01-01, with a valid phone and email, gets only the first-name fragment |
| Validator.FutureBirthdayOnly | rest-api-demo/student-service/src/main/java/org/itstep/studentservice/api/StudentController.java:136-144 | `Alice Smith`, born 2999-01-01, with a valid phone and email, gets only the birthday fragment |
| Controller.NotFoundDetailRoundTrip | rest-api-demo/student-service/src/main/java/org/itstep/studentservice/api/StudentController.java:48 | the not-found detail names the requested id, and the id can be read back from it |
| Controller.NotFoundDetailInjective | rest-api-demo/student-service/src/main/java/org/itstep/studentservice/api/StudentController.java:48 | different ids give different not-found details |
| Controller.NotFoundDetailSample | rest-api-demo/student-service/src/main/java/org/itstep/studentservice/api/StudentController.java:48 | for id 999 the detail is `Student by id=999 not found` |
| Controller.LocationRoundTrip | rest-api-demo/student-service/src/main/java/org/itstep/studentservice/api/StudentController.java:64 | the location of a created record leads back to its id |
| Controller.NotFoundIdExact | rest-api-demo/student-service/src/main/java/org/itstep/studentservice/api/StudentController.java:48 | a text read as the not-found detail of an id is exactly that detail, character for character |
| Controller.LocationIdExact | rest-api-demo/student-service/src/main/java/org/itstep/studentservice/api/StudentController.java:64 | a text read as the location of an id is exactly `/api/v1/student/` followed by the id's rendering |
| Controller.NotFoundDetail | rest-api-demo/student-service/src/main/java/org/itstep/studentservice/api/StudentController.java:48 | the detail for a missing id, used by find, update and delete (lines 48, 103, 117): it starts `Student by id=`, ends ` not found`, and has the id's rendering, never empty, in between |
| Controller.Location | rest-api-demo/student-service/src/main/java/org/itstep/studentservice/api/StudentController.java:64 | the location of a new record: it starts with `/api/v1/student/` and the id's rendering follows |
| Controller.Find | rest-api-demo/student-service/src/main/java/org/itstep/studentservice/api/StudentController.java:40-52 | never changes the store; answers the stored record exactly when the id is present, else `Error find student` with the detail exactly `Student by id=<id> not found` |
| Controller.Create | rest-api-demo/student-service/src/main/java/org/itstep/studentservice/api/StudentController.java:58-75 | created exactly when the record is valid, and then the store gains it under the new id and the location is exactly `/api/v1/student/<newId>`; otherwise the store is unchanged and the `Error save student` detail reads back as the failing checks |
| Controller.Merge | rest-api-demo/student-service/src/main/java/org/itstep/studentservice/api/StudentController.java:87-92 | the merged record keeps the stored id |
| Controller.MergeIsRekeyedRequest | rest-api-demo/student-service/src/main/java/org/itstep/studentservice/api/StudentController.java:87-92 | the merged record is the request with the stored id: all five other fields come from the request |
| Controller.Update | rest-api-demo/student-service/src/main/java/org/itstep/studentservice/api/StudentController.java:80-106 | a missing id leaves the store unchanged, with title `Error update student` and detail exactly `Student by id=<id> not found`; otherwise succeeds exactly when the merged record is valid, and then only that key changes; on failure the store is unchanged and the detail reads back as the failing checks |
| Controller.Delete | rest-api-demo/student-service/src/main/java/org/itstep/studentservice/api/StudentController.java:108-121 | on a present id, answers the stored record and removes exactly that key, keeping every other entry; otherwise the store is unchanged and the title is `Error update student` with the detail exactly `Student by id=<id> not found` |
| Controller.CreateKeepsWellKeyed | rest-api-demo/student-service/src/main/java/org/itstep/studentservice/api/StudentController.java:62-64 | create keeps every record stored under its own id |
| Controller.UpdateKeepsWellKeyed | rest-api-demo/student-service/src/main/java/org/itstep/studentservice/api/StudentController.java:85-96 | update keeps every record stored under its own id |
| Controller.DeleteKeepsWellKeyed | rest-api-demo/student-service/src/main/java/org/itstep/studentservice/api/StudentController.java:110-114 | delete keeps every record stored under its own id |
| Controller.CreateKeepsAllValid | rest-api-demo/student-service/src/main/java/org/itstep/studentservice/api/StudentController.java:59-64 | if every stored record is valid, it stays so after a create |
| Controller.UpdateKeepsAllValid | rest-api-demo/student-service/src/main/java/org/itstep/studentservice/api/StudentController.java:93-96 | if every stored record is valid, it stays so after an update |
| Controller.DeleteKeepsAllValid | rest-api-demo/student-service/src/main/java/org/itstep/studentservice/api/StudentController.java:110-114 | if every stored record is valid, it stays so after a delete |
| Controller.AllValidLater | rest-api-demo/student-service/src/main/java/org/itstep/studentservice/api/StudentController.java:136-144 | records valid at one time stay valid at every later time |
| Controller.CreateThenFind | rest-api-demo/student-service/src/main/java/org/itstep/studentservice/api/StudentController.java:40-75 | a created record is found under the id its location names |
| Controller.CreateThenDelete | rest-api-demo/student-service/src/main/java/org/itstep/studentservice/api/StudentController.java:58-121 | deleting a record just created restores the store |
| Controller.UpdateThenFind | rest-api-demo/student-service/src/main/java/org/itstep/studentservice/api/StudentController.java:40-106 | after a successful update, find answers the updated record |
| Controller.UpdateIdempotent | rest-api-demo/student-service/src/main/java/org/itstep/studentservice/api/StudentController.java:80-106 | sending the same update twice leaves the same store as sending it once |
| Controller.DeleteThenFind | rest-api-demo/student-service/src/main/java/org/itstep/studentservice/api/StudentController.java:40-121 | after a delete the id is gone: find reports it missing, and a second delete changes nothing |
| Controller.RejectionsChangeNothing | rest-api-demo/student-service/src/main/java/org/itstep/studentservice/api/StudentController.java:40-106 | find, and any create or update of an invalid record, leave the store as it was |

## Left out

- Spring routing, annotations, CORS and JSON/XML content negotiation are
  framework plumbing. `ResponseEntity` and `ProblemDetail` become the
  `Response` datatype. Its constructors stand for statuses 200, 201 and 400.
  The problem body keeps only its title and detail.
- The list endpoint `findAll()` (lines 34-37) is left out. It passes the
  repository's list through without logic, and the list order belongs to the
  repository.
- The repository becomes an abstract map. On create, `newId` is the id the
  repository assigns, and it is required to be fresh. The model ignores any
  id the client sends with the record. What JPA's `save` does with a
  client-supplied id depends on the entity mapping, which is not part of this
  model.
- The log-and-rethrow of storage exceptions (lines 66-69) is left out: a
  failing store is not modelled. The `System.out.println` diagnostics
  (lines 134, 142, 155, 159) are left out as well.
- `new Date()` (line 133) becomes the parameter `now`. Dates are integers in
  milliseconds, which is what `compareTo` compares.
- Null fields are left out. Every `Student` field is present; the source
  would throw on a null name, birthday, phone or email.
- `String.length()` counts UTF-16 code units, while the model counts
  characters. They differ only for characters outside the Basic
  Multilingual Plane.
- Ids are unbounded integers, not 32-bit `Integer`s.
- `Address.java` is a plain data holder of the other service and is left out.
- Concurrent requests are left out; the source has no coordination to model.
- The delete endpoint's error title `Error update student` (line 118) is
  kept as written. It looks like a copy of the update title, but it is a
  label, not a behaviour, so the model does not correct it.
