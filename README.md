# User store of the React + PHP user manager, in Dafny

The backend of this user-management demo is one PHP script,
`backend/api/users.php`. It keeps an ordered list of `{id, name, email}`
records in a JSON file and answers four HTTP verbs:

- **GET** lists the records with their count.
- **POST** validates a name and an email. It then appends a record under the
  next free id (`max(id) + 1`, or 1 for an empty store) and answers 201.
- **DELETE** removes the records carrying the `id` query parameter. It
  answers 404 without writing when none matched.
- **OPTIONS** answers 200 at once. Any other verb gets 405.

Before any verb except OPTIONS, a missing file is created holding two seed
records with ids 1 and 2.

The model has four modules:

- `Wrappers` (`wrappers.dfy`): the `Option` type for absent fields.
- `PhpText` (`php_text.dfy`): the string built-ins the handler applies.
  These are PHP `empty`, `trim` (exactly: space, tab, LF, CR, NUL, vertical
  tab) and `htmlspecialchars`. Escaping uses the default table of PHP 8.1+,
  where `& " ' < >` become entities. A decoder proves that escaping loses
  nothing.
- `Users` (`users.dfy`): the record type and the store invariant (ids
  positive and unique). It holds the id allocator (`MaxId`, `NextId`) and the
  filter of the DELETE branch. `Without` is the specification of that
  filter; `FilterOut` is its loop, which also computes the `$found` flag.
- `UsersApi` (`users_api.dfy`): the response envelope and the data file
  (`StoreFile`: missing, unreadable, or holding records). The class
  `UserStore` holds that file as a field. Its methods are the script's steps:
  `EnsureSeeded`, `List`, `Create`, `Delete` and the dispatcher `Handle`.
  Each one states the new file and the response in terms of the old file,
  and keeps the store invariant.

The email check `filter_var(..., FILTER_VALIDATE_EMAIL)` is a PHP built-in
whose grammar is not part of this model. `Create` and `Handle` take it as a
parameter `validEmail: string -> bool`, so every result holds for any email
filter.

Behaviour of the code worth noting:

- The emptiness check runs on the untrimmed input. A name of blanks passes
  and is stored as the empty string (`BlankNameStoredEmpty`).
- PHP `empty` also treats the string `"0"` as empty, so a name or email of
  `"0"` is refused with 400.
- The seeding runs before the verb is dispatched. A 400 or 405 on a missing
  file therefore still leaves the file created with the two seed records.
  "Unchanged" in the contracts means "as seeding left it".
- A file whose JSON decodes to a falsy value reads as the empty list. A
  POST then overwrites it with a one-record store whose id is 1.
- Ids are reused. The next id is one above the current maximum, so once the
  record with the highest id is deleted, the next POST hands out that id
  again (`IdReuse`). With ids 1, 2 and 3, deleting 3 and then adding a user
  gives the new user id 3.

## Model

| member | source | states |
|---|---|---|
| `PhpText.Trim` | backend/api/users.php:106-107 | the result is a slice of the input; everything cut off is a trim character; the result neither starts nor ends with one; it is empty exactly when the input is all trim characters |
| `PhpText.TrimIdempotent` | backend/api/users.php:106-107 | trimming an already trimmed value changes nothing |
| `PhpText.HtmlEscape` | backend/api/users.php:106-107 | no `<`, `>`, `"` or `'` survives escaping; the result is never shorter; text without metacharacters is unchanged |
| `PhpText.EscapeRoundTrip` | backend/api/users.php:106-107 | decoding the escaped text gives back the input, so escaping loses no information |
| `Users.MaxId` | backend/api/users.php:60 | `max` over the ids is an id of the store and at least every id in it |
| `Users.NextId` | backend/api/users.php:58-62 | 1 for an empty store; otherwise one more than an existing id; greater than every id; positive when the ids are |
| `Users.SeedUsers` | backend/api/users.php:28-42 | the seed store is well formed, holds ids 1 and 2, and allocates 3 next |
| `Users.AppendKeepsWellFormed` | backend/api/users.php:103-110 | appending a record under the allocated id keeps ids positive and unique |
| `Users.Without` | backend/api/users.php:155-161 | a record survives the filter exactly when it was stored and its id differs from the target; the result is never longer |
| `Users.WithoutIsSubsequence` | backend/api/users.php:155-161 | the surviving records keep their original relative order |
| `Users.WithoutAbsent` | backend/api/users.php:155-161 | filtering an id that no record has returns the store unchanged |
| `Users.WithoutPresent` | backend/api/users.php:155-161 | with unique ids, deleting the id of record k removes exactly that record, so the count drops by one |
| `Users.WithoutKeepsWellFormed` | backend/api/users.php:155-172 | the filtered store that gets saved is still well formed |
| `Users.WithoutAppended` | backend/api/users.php:104-161 | deleting the id of a freshly appended record restores the store before the append |
| `Users.WithoutMultiset` | backend/api/users.php:155-161 | the filter never duplicates a record, and every record whose id differs from the target survives exactly as often as it was stored |
| `Users.WithoutSnoc` | backend/api/users.php:155-161 | filtering a store with one more record at the end is filtering the store and then keeping that record exactly when its id differs |
| `Users.FilterOut` | backend/api/users.php:151-161 | the loop returns exactly the filtered records; the found flag is true exactly when some record had the id |
| `PhpText.PhpEmpty` | backend/api/users.php:83 | a field that is not empty is present and has at least one character; a field of two or more characters is never empty; a one-character field is empty exactly when it is `"0"` (so only absent, `""` and `"0"` are) |
| `PhpText.EscapeChar` | backend/api/users.php:106-107 | one character's replacement is never empty and holds no markup character; any other character than the five metacharacters stays as it is |
| `UsersApi.Contents` | backend/api/users.php:45-49 | the definition of `getUsers` with its `?: []`: a file holding records reads as those records, and a missing file or one whose content decodes to a falsy value reads as the empty store; it has no contract of its own, and `UserStore.Load` is this function over the store's file |
| `UsersApi.Seeded` | backend/api/users.php:27-42 | after the start-up check the file exists; an existing file is left alone; a missing one becomes a well-formed store with ids 1 and 2 |
| `UsersApi.IdParam` | backend/api/users.php:140 | a positive target can only come from an `id` parameter with that value; a missing parameter gives a target the DELETE branch rejects |
| `UsersApi.Accepted` | backend/api/users.php:83-100 | an accepted POST body has both fields present and non-empty, and the email passes the email filter |
| `UsersApi.NewRecord` | backend/api/users.php:104-108 | the new record's id is held by no existing record and is positive when the ids are; its name and email decode back to the trimmed input and hold no markup character |
| `UsersApi.IdReuse` | backend/api/users.php:58-161 | adding a record and deleting it again makes the allocator hand out the same id once more: ids are reused |
| `UsersApi.BlankNameStoredEmpty` | backend/api/users.php:83-107 | a name of trim characters passes the emptiness check and is stored as the empty string |
| `UsersApi.UserStore.Save` | backend/api/users.php:45-55 | the whole file is replaced by the given records, and what is saved is exactly what `Load` (`getUsers`) returns afterwards |
| `UsersApi.UserStore.EnsureSeeded` | backend/api/users.php:27-42 | a missing file becomes the seed store; any other file is left alone; the invariant is kept |
| `UsersApi.UserStore.List` | backend/api/users.php:68-76 | answers 200 with the stored records and a count equal to their number, writing nothing |
| `UsersApi.UserStore.Create` | backend/api/users.php:78-136 | an empty field gives 400 "Name and email are required"; a failing email filter gives 400 "Invalid email format"; the file is untouched in both cases; otherwise one record with the next id and the trimmed, escaped fields is appended after the unchanged old records, and the answer is 201 with that record; the invariant is kept |
| `UsersApi.UserStore.Delete` | backend/api/users.php:138-177 | a missing or non-positive id gives 400; an id nobody has gives 404; the file is untouched in both cases; otherwise the filtered records are saved and the answer is 200; the invariant is kept |
| `UsersApi.UserStore.Handle` | backend/api/users.php:13-186 | OPTIONS answers 200 with no body and leaves the file as it was; other verbs seed first; GET lists; unknown verbs get 405; 201 and 200-on-DELETE hold exactly under the POST and DELETE conditions, each 400 and 404 carries the branch's message; a 201 answers with the new record (next id, trimmed and escaped fields) appended after the unchanged old records; every failure response leaves the seeded file unchanged; the invariant is kept |
| `UsersApi.ListTwice` | backend/api/users.php:68-76 | two GETs in a row give identical answers and write nothing beyond the seeding |
| `UsersApi.SeededCreateScenario` | backend/api/users.php:28-111 | on a missing file, the first POST gets id 3 and is stored after the two seed records |
| `UsersApi.SeededStoreScenario` | backend/api/users.php:151-177 | continuing from there, deleting id 2 answers 200 and the listing holds ids 1 and 3 |
| `UsersApi.EmptyStoreScenario` | backend/api/users.php:83-111 | on an empty store, an invalid email and an empty name are refused with 400; a valid user then gets id 1, and the listing counts one record |

## Left out

- File I/O: `mkdir`, `file_get_contents` and `file_put_contents` are replaced by the `file` field of `UserStore`. A failed write is not modelled.
- JSON: `json_encode`/`json_decode` are replaced by datatypes. File content whose decoding is falsy (invalid JSON, `null`, `[]`, `false`, `0`, `""`, `"0"`) is the single state `Unreadable`, which reads as the empty list. Content that decodes to a truthy value other than a list of records (a number, a string, `true`, a JSON object) is not modelled; GET on a scalar fails in `count()` instead of answering.
- POST body fields of non-string JSON types (numbers, booleans, arrays) are not modelled. A field is a string or absent.
- `intval` parsing of the `id` query parameter is not modelled. The parameter arrives as an integer or as absent.
- The email filter's grammar is not modelled. It is a parameter of `Create` and `Handle`.
- `htmlspecialchars` handling of invalid UTF-8 is not modelled. Neither is the older default before PHP 8.1, which leaves `'` unescaped. Characters stand for bytes.
- The outgoing webhook call after a successful POST is not modelled. It is a network side effect whose result the handler discards.
- The CORS and content-type headers are output only.
- Concurrent requests racing on the shared file are not modelled. The model handles one request at a time.
- Users.NextId: ids are unbounded integers. PHP's are 64-bit: at `PHP_INT_MAX`, `getNextId` returns a float, which is stored as a float and read back equal to `PHP_INT_MAX`, so later POSTs can repeat an id; `json_decode` also turns ids wider than 64 bits into floats. The uniqueness the model proves (`NewRecord`, `Create`, `Handle`) holds only while every id stays below `PHP_INT_MAX`, which a store counting up from 1 does not reach.
- PHP's loose `==` between a stored id and the target is modelled as integer equality. Ids are integers in the model.
- The React frontend, its UI tests and the static landing page hold no store logic.
