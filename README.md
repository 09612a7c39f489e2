# Student directory: a verified model

This project models the in-memory student directory of a small Flask service.
The service keeps a module-level dict `students` that maps an integer id to a
record `{id, name, age, email}`. A counter `next_id` hands out the ids. Four
handlers work on the dict: create (POST /students), list (GET /students), get
(GET /students/<id>) and update (PUT /students/<id>).

The repository has two versions of these handlers:

- `main2.py`, the older self-contained version, which validates only the shape of the request;
- `routes/students.py`, the blueprint version, which also checks e-mail addresses with the regular expression `^[a-zA-Z0-9_.+-]+@[a-zA-Z0-9-]+\.[a-zA-Z0-9-.]+$`.

One flag, `checksEmail`, selects the version: `true` is the blueprint, `false` is `main2.py`.

Files:

- `Wrappers.dfy`: the `Option` type.
- `Email.dfy`: module `Email` models `is_valid_email`. `IsValidEmail` decides the pattern by splitting at the first `@` and then at the first `.` after it. `PatternMatches` states the regular expression with an arbitrary split, and the two are proved equal. Module `EmailExamples` checks the documented address and the malformed ones.
- `Students.dfy`: module `Students` models the directory as a value: records, insertion order and counter. Each handler is a function from the old directory to the new directory and the response. The lemmas prove the handlers' properties, and `Replay` runs any sequence of requests from start-up.
- `Store.dfy`: module `StudentStore` holds class `Store`, whose fields the handlers update in place. Each method is proved equal to the function of the same name in `Students`.

Modelling decisions:

- A request body is `Option<map<string, Value>>`. `None` is a request without JSON. `Value` is `Str` or `Int`.
- `not request.json` is true for `None` and for the empty map. `IsFalsy` models that test.
- The truth value of a field (`if email and ...`) is `Truthy`: a non-empty string or a non-zero integer.
- In the blueprint version, a non-string e-mail that reaches `re.match` raises `TypeError`. Flask turns that into HTTP 500, modelled as `InternalError`.
- Python's dict keeps keys in insertion order, and `list(students.values())` follows it. The model keeps that order in the explicit field `order`.
- Python parses the class `[a-zA-Z0-9-.]` as letters, digits, `-` and `.`.
- Python's `$` also matches just before one final newline. So `"johndoe@example.com\n"` is accepted, and the model does the same.
- `routes/students.py` imports `students` and `generate_student_id` from `models/student_model.py`, which is not part of this model. The model assumes that file has the same empty dict and the same counter starting at 1 as `main2.py:8-16`.

Behaviour worth noting:

- An update whose body has `"email": ""` (or `0`) skips the validator, because `routes/students.py:205-206` tests the value's truth. Line 212 still writes that value instead of keeping the old address, so the invariant "every stored address is valid" does not survive an update. `Students.EmptyEmailUpdateBreaksEmailsValid` proves this.
- The listing follows insertion order, which is ascending id order.
- Neither version checks that `name` is non-empty, and neither does the model.
- The pattern's tail class includes `.`, so the part after the first dot may hold empty labels: `"a@b.."` is accepted.

## Model

| member | source | states |
|---|---|---|
| `Email.IsValidEmail` | routes/students.py:9-11 | decides the pattern by splitting at the first `@` and then at the first `.` after it, after dropping one final newline; an accepted address is at least five characters long and starts with a local-part character |
| `Email.IsValidEmailMeansPattern` | routes/students.py:9-11 | `is_valid_email(s)` is truthy exactly when `s` is `L@D.T` or `L@D.T` plus one newline, with L non-empty over `[A-Za-z0-9_.+-]`, D non-empty over `[A-Za-z0-9-]` and T non-empty over `[A-Za-z0-9.-]` |
| `Email.SplitAccepted` | routes/students.py:10 | every string built as `L@D.T`, with or without one trailing newline, is accepted |
| `Email.AcceptedEmailShape` | routes/students.py:10 | an accepted address holds exactly one `@`, and after it a `.` with a non-empty, dot-free label between the two |
| `Email.RejectsWithoutAt` | routes/students.py:10 | a string without `@` is rejected |
| `Email.RejectsWithoutDot` | routes/students.py:10 | a string without `.` is rejected |
| `Email.RejectsRepeatedAt` | routes/students.py:10 | a string with two or more `@` is rejected |
| `EmailExamples.AcceptsDocumentedAddress` | routes/students.py:40 | the documented address `johndoe@example.com` is accepted |
| `EmailExamples.AcceptsDocumentedAddressWithNewline` | routes/students.py:10 | that address followed by one newline is accepted too, because of Python's `$` |
| `EmailExamples.RejectsAddressWithoutAt` | routes/students.py:10 | `bad-email` is rejected |
| `EmailExamples.RejectsAddressWithoutDot` | routes/students.py:10 | `a@b` is rejected |
| `EmailExamples.RejectsAddressWithDoubleAt` | routes/students.py:10 | `a@@b.com` is rejected |
| `Students.Create` | routes/students.py:62-77 | 400 missing-field exactly when the body is falsy or lacks `name`, `age` or `email`. Success exactly when the fields are present and, with validation on, the e-mail is accepted. With validation on, a rejected string e-mail gives 400 invalid-email and a non-string one gives 500. Any failure leaves the directory and the counter unchanged. Success stores the record with the counter's id and the supplied fields, appends the id to the order and advances the counter by one |
| `Students.Get` | routes/students.py:143-146 | the response is the record stored under the id when it is present, and 404 otherwise |
| `Students.Update` | routes/students.py:199-214 | 404 exactly when the id is absent, whatever the body. 400 not-JSON exactly when the id is present and the body is falsy. With validation on, a truthy e-mail that is rejected gives 400 (500 for a non-string). Any failure changes nothing. Success keeps the id, overwrites `name`, `age` and `email` exactly where the body has them, keeps the other fields, and changes no other part of the directory |
| `Students.Listing` | main2.py:37 | `list(students.values())`: one entry per key in insertion order, and entry i is the record stored under the i-th inserted key |
| `Students.ListingIsDirectory` | routes/students.py:107 | the listing holds exactly the stored records, one entry per record, in ascending id order |
| `Students.CreatePreservesValid` | main2.py:24-31 | a create keeps the directory consistent: each key listed once in increasing order, each record under its own id, each id below the counter |
| `Students.CreateInsertsFreshRecord` | routes/students.py:69-77 | a successful create uses a key not in use before, adds exactly that key and leaves every earlier record as it was. Reading that id back returns the created record |
| `Students.UpdatePreservesValid` | main2.py:56-59 | an update keeps the directory consistent |
| `Students.UpdateChangesOnlyItsRecord` | routes/students.py:209-212 | a successful update keeps the record's id, the set of keys, the order and the counter. It leaves every other record unchanged, and reading the id back returns the updated record |
| `Students.CreateKeepsEmailsValid` | routes/students.py:65-67 | with validation on, a create never stores an address the validator rejects |
| `Students.UpdateKeepsEmailsValidUnlessFalsy` | routes/students.py:205-207 | with validation on, an update keeps every stored address valid when the body's `email` key is absent or truthy |
| `Students.EmptyEmailUpdateBreaksEmailsValid` | routes/students.py:205-212 | with validation on, updating any present record with `{"email": ""}` succeeds and stores the empty address, which the validator rejects |
| `Students.UncheckedVersionStoresVerbatim` | main2.py:21-31 | without validation, a create with the three fields always succeeds and stores the e-mail value as given. An update of a present record with a non-empty body always succeeds |
| `Students.ReplayFromEmptyNumbersRecords` | main2.py:8-16 | from start-up, under any mix of creates, reads and updates, the successful creates get ids 1, 2, 3, ... with no gap or reuse. The keys are exactly 1 to their number, in that order, and the counter is one past the last |
| `Students.ReplayOnlyGrows` | main2.py:63-65 | no sequence of requests removes a key or moves the counter back; the route commented as a delete is the summary endpoint |
| `StudentStore.Store.constructor` | main2.py:8-9 | the store starts with no records and the counter at 1 |
| `StudentStore.Store.GenerateId` | main2.py:12-16 | returns the current counter and advances it by one, changing nothing else |
| `StudentStore.Store.Create` | main2.py:20-32 | the in-place create leaves the store in the state `Students.Create` describes and returns its response |
| `StudentStore.Store.List` | main2.py:36-37 | returns the stored records in insertion order: every record once, in ascending id order |
| `StudentStore.Store.Get` | main2.py:41-45 | returns the record under the id or 404, and changes nothing |
| `StudentStore.Store.Update` | main2.py:49-61 | the in-place, field-by-field update leaves the store in the state `Students.Update` describes and returns its response |

## Left out

- The summary endpoints (`routes/students.py:216-256`, `main2.py:64-85`) are left out. They make an outbound HTTP call to a text-generation server and decode its JSON reply. The only directory logic in them is the 404 lookup before the call, which is the same lookup as `Students.Get`.
- `ok.py` is left out: it is a network wrapper only.
- `app.py` is left out: it only registers the Flask app and the blueprint.
- Flask plumbing is left out: request parsing (including the error for a wrong content type), `jsonify`, the `abort` messages and the Swagger docstrings. The model returns a response value instead. `Ok` stands for both 201 (create) and 200 (the other handlers).
- JSON values other than strings and integers are left out: `null`, booleans, floats, lists and nested objects. So are request bodies that are JSON but not objects.
- `models/student_model.py` is not part of this model. Its counter is assumed to behave like `main2.py:12-16`.
- The handlers return `jsonify` snapshots, so no caller ever holds a reference to a stored dict. The model therefore stores records as values, and aliasing is not modelled.
- Concurrent requests are left out. The source has no locking, and each request is modelled as one atomic step.
