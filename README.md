# Client records: validation rules, blank records and the client store

This project models the core of a browser prototype that manages "clients":
billed customers who own one or two server assignments and a list of access
points. An access point binds one app and one account (`user`, `pass`) to
one server and uses some number of connections (`conns`) of that server's
quota (`screensPerServer`).

The model has four modules:

- `Common` (`common.dfy`) holds the shared pieces. These are `Option`, the
  `{ ok, msg }` result records, and a generic order-preserving `Filter` with
  proofs that its result is a subsequence of its input and has exactly the
  input's passing elements. It also holds the JavaScript string operations
  the core relies on: the `\s` and `\d` classes, `trim`, ASCII
  `toLowerCase` and `includes`. It also holds `IndexOf`, a first-occurrence
  search that the source does not call; the model uses it to match the
  email pattern.
- `ClientsModels` (`models.dfy`) holds the point, client and app-metadata
  records and the blank client and point that a new form starts from.
- `ClientsValidation` (`validation.dfy`) holds the side-effect-free checks:
  - name, phone, email, screens per server and due date;
  - the composite per-point check;
  - the per-server connection sums (`SumConns`, a loop that builds a map);
  - the per-client uniqueness check on (app, user) (`CheckLocalUniqueAppUser`,
    a loop over a `seen` set with an early exit).

  Each loop is a method proved against a specification function. The module
  also has lemmas that tie the blank records to these checks.
- `ClientsService` (`service.dfy`) holds the client store. It is a class
  `ClientStore` whose field `clients` is the stored list. Its methods are
  `List` (search), `Create` (stamp with an id, put first), `Update` (merge
  into the first record with the id, or fail with "Not found") and `Remove`
  (drop every record with the id). Lemmas about removal, lookup and creation
  go with them.

Nullable fields are `Option`s. "Present" means JavaScript truthiness of a
nullable string: neither null/undefined nor `''`. A stored client is a JSON
object, `map<string, Value>`, because the store keeps whatever fields the
form's payload carried. JavaScript object spread becomes right-biased map
union.

Where the written design and the code differ, the model follows the code:

- `sumConns` keeps an entry for every server some point names, even one
  whose sum is 0. The design says zero entries are omitted. This holds for
  ordinary server ids; ids that name a member of `Object.prototype` are not
  modelled (see Left out).
- `validatePointLocal` checks the app metadata only after user and password.
  It trims the user but not the password. Non-exclusive apps are checked
  against the quota with `≤`, not for exact equality.
- The `multiplosAcessos` flag marks an app exclusive only when it is exactly
  `false`. A missing flag means the app is shared.
- `checkLocalUniqueAppUser` applies to points of every app, not only
  exclusive ones, although its message speaks of exclusive apps. Points with
  a falsy app or user are skipped. The user is not trimmed there.
- `validateEmail` accepts an empty string as well as an absent email.
- `validateDueDate` accepts a date string that does not parse (see Findings).

## Model

| member | source | states |
|---|---|---|
| `ClientsValidation.NormalizePhone` | js/clients/clients-validation.js:4-7 | '' for a falsy input; otherwise the result is all digits, is a subsequence of the input, and holds each digit exactly as often as the input (so exactly the input's digits, in order) |
| `ClientsValidation.NormalizePhoneEmptyIff` | js/clients/clients-validation.js:4-7 | the normalised phone is empty exactly when the input is falsy or holds no digit |
| `ClientsValidation.ValidateName` | js/clients/clients-validation.js:9-13 | "Nome obrigatório" for an absent or empty name, "Nome inválido" for a whitespace-only one; ok exactly when the name has a non-whitespace character |
| `ClientsValidation.ValidatePhoneRaw` | js/clients/clients-validation.js:15-19 | ok exactly when the normalised phone is non-empty, i.e. the input holds a digit; on success `digits` is the normalised phone, on failure the message is the phone-required one and `digits` is '' |
| `ClientsValidation.SimpleEmailMatchesPattern` | js/clients/clients-validation.js:23-24 | the first-'@' matcher accepts exactly the strings the pattern `local@rest` describes (both parts non-empty and free of whitespace and '@', a '.' inside `rest` with a character on each side) |
| `ClientsValidation.ValidateEmail` | js/clients/clients-validation.js:21-25 | an absent or empty email is ok; otherwise ok exactly when it has the pattern's shape, and a failure carries "Email inválido" |
| `ClientsValidation.ValidateScreens` | js/clients/clients-validation.js:27-31 | accepted exactly when n ≥ 1; the accepted value is an integer ≥ 1 with value ≤ n < value + 1 (the floor) |
| `ClientsValidation.ValidateDueDate` | js/clients/clients-validation.js:33-40 | an absent date fails with the required message; ok exactly when the date is unreadable or its day is strictly after today (equal to today is refused) |
| `ClientsValidation.UnparseableDueDateAccepted` | js/clients/clients-validation.js:36-38 | the code accepts an unreadable date, and the corrected check refuses it |
| `ClientsValidation.ValidateDueDateStrict` | js/clients/clients-validation.js:33-40 | corrected check: ok exactly when the date is a readable day strictly after today; an unreadable date fails |
| `ClientsValidation.DueDateChecksAgreeOnReadableDates` | js/clients/clients-validation.js:36-38 | the code's check and the corrected one differ on exactly the unreadable date |
| `ClientsValidation.ValidatePointLocal` | js/clients/clients-validation.js:42-63 | ok exactly when server, app, trimmed user and password are given, the app is known, and either the app is exclusive and conns is 1, or conns ≥ 1 and existing conns (missing as 0) plus conns ≤ screensPerServer; the checks run in the source's order and the first failing one gives the message |
| `ClientsValidation.ExclusiveIgnoresServerLoad` | js/clients/clients-validation.js:52-53 | for an exclusive app the result does not depend on the quota or the existing points, and is ok exactly when the fields are given and conns is 1 |
| `ClientsValidation.TotalConnsOnOneServer` | js/clients/clients-validation.js:58 | on points that all sit on one server, the `reduce` sum equals that server's per-server sum |
| `ClientsValidation.AcceptedPointFitsQuota` | js/clients/clients-validation.js:54-60 | a shared-app point that passes, added to the points already on its server, keeps that server's sum within screensPerServer |
| `ClientsValidation.SumForUnbound` | js/clients/clients-validation.js:69 | a server that no point names has sum 0 |
| `ClientsValidation.SumConns` | js/clients/clients-validation.js:66-73 | the map has an entry for exactly the servers some point names (points without a server are skipped); each entry is the sum of conns (missing as 0) of the points on that server; every server without an entry sums to 0 |
| `ClientsValidation.CheckLocalUniqueAppUser` | js/clients/clients-validation.js:76-85 | ok exactly when no two points with app and user build the same `app::user` key; on failure the message names the user of the first point whose key was already seen |
| `ClientsValidation.AppUserKeyCollision` | js/clients/clients-validation.js:80 | ("a::b", "c") and ("a", "b::c") are distinct pairs that the string-key check reports as duplicates |
| `ClientsValidation.CheckLocalUniquePairs` | js/clients/clients-validation.js:76-85 | corrected check: ok exactly when no two points with app and user share the (app, user) pair; same failure message and position |
| `ClientsValidation.UniqueKeysImplyUniquePairs` | js/clients/clients-validation.js:80 | whatever the string-key check accepts, the pair check accepts too |
| `ClientsModels.EmptyClient` | js/clients/clients-models.js:4-17 | the blank client literal field by field: id, planId and dueDate null; name, phone and email ''; screensPerServer 1; both server ids null; no points |
| `ClientsModels.EmptyPoint` | js/clients/clients-models.js:19-28 | the blank point literal field by field: id, serverId and appId null; conns 1; user and pass '' |
| `ClientsValidation.EmptyClientDefaults` | js/clients/clients-models.js:4-17 | the blank client has no id, plan, due date or servers, empty name, phone and email, and no points; its screensPerServer is accepted with value 1, while its name, phone and due date are refused and its email passes |
| `ClientsValidation.EmptyPointRejected` | js/clients/clients-models.js:19-28 | the blank point has no id, server or app, one connection and empty user and password; the per-point check rejects it with the server-required message, its first check |
| `ClientsValidation.FilledEmptyPointFitsExclusiveApp` | js/clients/clients-models.js:24 | the blank point's single connection passes an exclusive app once server, app, user and password are filled in |
| `ClientsService.Stamped` | js/clients/clients-service.js:23 | the new record has the payload's fields plus `id`; payload fields win, so the generated id holds only when the payload has none |
| `ClientsService.Merged` | js/clients/clients-service.js:33 | the merged record has the fields of both; payload fields replace, other fields keep their old values |
| `ClientsService.FindIndexById` | js/clients/clients-service.js:31 | the result is the first index whose record carries the id, or none when no record does |
| `ClientsService.WithoutId` | js/clients/clients-service.js:40 | the filtered list holds no record carrying the id and is a subsequence of the list |
| `ClientsService.WithoutIdExact` | js/clients/clients-service.js:40 | after removal no record carries the id; the result is a subsequence of the list and keeps every other record exactly as often as before |
| `ClientsService.WithoutIdIdempotent` | js/clients/clients-service.js:38-43 | removing an id twice is removing it once |
| `ClientsService.WithoutAbsentId` | js/clients/clients-service.js:40 | removing an id that no record carries leaves the list unchanged |
| `ClientsService.NotFoundAfterRemoval` | js/clients/clients-service.js:29-32 | after the id is removed, an update of it finds no record (and so fails with "Not found") |
| `ClientsService.CreatedFoundFirst` | js/clients/clients-service.js:20-27 | a created record whose payload has no id is the first one its id finds; a payload id overrides the generated one |
| `ClientsService.RemoveAfterCreate` | js/clients/clients-service.js:38-43 | removing the id of a just-created record gives the same list as removing it from the list before the creation |
| `ClientsService.Search` | js/clients/clients-service.js:13-18 | an absent or empty query gives the whole list; the result is always a subsequence of the list, and with a query every record in it has a lower-cased name, user or phone containing the lower-cased query |
| `ClientsService.ClientStore.constructor` | js/clients/clients-service.js:5-8 | the store starts with the list that storage held |
| `ClientsService.ClientStore.List` | js/clients/clients-service.js:13-18 | an absent or empty query returns the whole stored list; otherwise the result is a subsequence of the stored list and holds exactly the records whose lower-cased name, user or phone contains the lower-cased query, each as often as stored |
| `ClientsService.ClientStore.Create` | js/clients/clients-service.js:20-27 | the returned record is the stamped payload and the new list is that record followed by the old list |
| `ClientsService.ClientStore.Update` | js/clients/clients-service.js:29-36 | with no record carrying the id: "Not found" and the list unchanged; otherwise the first such record becomes the merge of itself and the payload, the length and all other records are kept, and the merged record is returned |
| `ClientsService.ClientStore.Remove` | js/clients/clients-service.js:38-43 | returns true; the new list is the old one without the records carrying the id |

## Left out

- Browser storage and JSON (`_readAll`/`_writeAll`) are not modelled. The list is an in-memory field. The constructor takes what storage held, and each mutator's new list is what it would write back.
- `async` and the `window.clientsService` global are not modelled. They only deliver the results.
- Id generation from the clock (`Date.now().toString(36)`) is not modelled. The id is a parameter of `Create`, and no uniqueness is promised.
- JavaScript `Date` parsing and time zones are not modelled. Today is a day number. A due date is a day number, or `Unparseable` for a string the `Date` constructor cannot read.
- `Number()` coercion, NaN and Infinity are not modelled. `ValidateScreens` takes a finite real. `conns` is an optional integer. A fractional `conns` and string-typed numbers are not modelled.
- `ValidatePointLocal`: `screensPerServer` is an integer. The source compares with whatever number the caller passes.
- `ClientsService.Matches`: `toLowerCase` is ASCII-only, so Unicode case mapping is not modelled. A truthy non-string name, user or phone is read as '' here, where the source would throw a TypeError.
- `String(x)` conversion and regex coercion of non-string name, phone, email, user or password values are not modelled (`normalizePhone` calls `String(str)`, `re.test(email)` coerces its argument). These fields are strings or absent.
- `ClientsValidation.SumConns`: server ids that name a member of `Object.prototype` (`__proto__`, `constructor`, `toString`, `valueOf`, ...) are not modelled, because catalogue ids are assumed to be ordinary strings. For such ids the source's plain-object map reads an inherited value, so it drops the entry or stores a concatenated string, while the model stores the numeric sum.
- The form and list views, the sidebar and navigation, mock login and the backend configuration placeholder are not modelled. They are DOM and I/O plumbing with no checking logic.
- The cross-client registry of exclusive (app, user) bindings, the transactional create/update gateway, the draft builder (adding or replacing points, server assignment with its distinctness rule, due dates derived from plans) and the save-readiness gate with its exact-quota rule are not part of this model. None of them is in the modelled files.

## Findings

| source | as written | input that shows it | evidently intended | confidence | as-written member | corrected member |
|---|---|---|---|---|---|---|
| js/clients/clients-validation.js:36-38 | `due <= now` on an invalid `Date` compares NaN, which is false, so the check returns ok | a non-empty due-date string that does not parse (`Unparseable`), with any today | a due date that cannot be read is refused | medium (not executed) | `ClientsValidation.UnparseableDueDateAccepted` | `ClientsValidation.ValidateDueDateStrict` |
| js/clients/clients-validation.js:80 | the uniqueness key is the concatenation `${appId}::${user}` | points ("a::b", "c") and ("a", "b::c"), distinct pairs with the same key "a::b::c" | uniqueness of the (app, user) pair | low (not executed) | `ClientsValidation.AppUserKeyCollision` | `ClientsValidation.CheckLocalUniquePairs` |
