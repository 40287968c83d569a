# SoraShareConnect invite-code server, modelled in Dafny

SoraShareConnect hands out invite codes. Visitors request a code, and once
they have used it they contribute four new ones. Admins log in to list, add,
re-status and delete codes. This project models the server side of that
system:

- `MemStorage`, the in-memory store (server/storage.ts).
- The request handlers that drive it (server/routes.ts).
- The start-up seeding (server/seed.ts).
- The record shapes (shared/schema.ts).

Modules and files:

| file | module | models |
|---|---|---|
| option.dfy | `Optional` | `T \| undefined` results and nullable columns |
| schema.dfy | `Schema` | rows of `invite_codes` and `admins`, their insert shapes, the free-text `status` column |
| ids.dfy | `Ids` | `randomUUID`, as a counter with an injective naming function |
| js.dfy | `Js` | JSON request values, JavaScript truthiness, `String.prototype.trim` |
| storage.dfy | `Storage` | the class `MemStorage` and the functions that specify it |
| routes.dfy | `Routes` | one method per route handler, each proved against a function of the old state |
| seed.dfy | `Seed` | `seedDatabase` |

How the model is built:

- **The store.** `MemStorage` is a class with three fields:
  - `codes`: the values of the `codes` map, in insertion order. A JavaScript
    `Map` iterates in insertion order, and `set` on an existing key keeps the
    key's place.
  - `admins`: the values of the `admins` map, in insertion order.
  - `issued`: how many ids the generator has handed out.
- **Mutators.** `createCode`, `updateCodeStatus`, `deleteCode` and
  `createAdmin` are methods that change these fields. Each ensures that the
  new state is a specification function of the old state.
- **Read-only queries.** These are functions of the sequence.
- **The store invariant.** `Valid()` requires:
  - unique keys;
  - every key issued by the generator;
  - every status read from text.
- **Nothing returns to the pool.** The predicate `Evolves` captures the
  lifecycle guarantee: no code whose id was issued earlier comes back as
  `available` unless it already was. Every handler's effect satisfies it, so a
  code that has left the pool is never handed out again
  (`LeftPoolNeverAllocated`).
- **Handlers.** Each route is a method that returns the HTTP status and
  payload. Submit, admin-add and delete are also specified by a function of the
  old codes and id count (`Submitted`, `Added`, `Removal`). The lemmas about
  those functions state what the route promises. The loops of submit,
  admin-add and seeding are separate methods (`StoreContributed`,
  `StoreEntries`, `StoreDemoCodes`). Each is proved against the same
  functions.

The client pages expect more than the server provides. The admin dashboard
sums `maxUses` and `usageCount` over the codes
(client/src/pages/AdminDashboard.tsx:180-181), and the request page posts to
`/api/codes/feedback` (client/src/pages/RequestCode.tsx:71). Nothing under
server/ implements either: a code has no usage fields, and no such route is
registered. The server has only the linear lifecycle available → distributed
→ used → invalid of the transition table (server/storage.ts:79-84), and this
model follows the server.

## Model

| member | source | states |
|---|---|---|
| Schema.ParseStatus | shared/schema.ts:9 | reading the free-text status column loses nothing: the status's name is the text, and an unknown status never carries one of the four known names |
| Schema.StatusRoundTrip | shared/schema.ts:9 | every status the store can hold is recovered from its stored text |
| Schema.InsertStatus | server/storage.ts:61 | a new row's status is the given text, or "available" when the text is omitted or empty |
| Ids.Uuid | server/storage.ts:57 | the n-th generated id has length n + 1, so ids from different calls differ |
| Ids.UuidInjective | server/storage.ts:57 | two generator calls give the same id only if they are the same call |
| Ids.IssuedExactly | server/storage.ts:57 | the m-th id counts as issued after n calls exactly when m < n |
| Ids.IssuedMonotone | server/storage.ts:121 | an id issued by the first n calls stays issued after more calls |
| Js.Truthy | server/routes.ts:41 | the `!x` and `if (x)` tests (here and at lines 62, 68, 79, 121 and 146) treat exactly undefined, null, false, 0 and the empty string as falsy |
| Js.Trim | server/routes.ts:68 | trimming never lengthens the text |
| Js.TrimStartRemovesWhiteSpace | server/routes.ts:68 | trimStart returns a suffix that does not start with white space, and only white space was cut off |
| Js.TrimEndRemovesWhiteSpace | server/routes.ts:68 | trimEnd returns a prefix that does not end with white space, and only white space was cut off |
| Js.TrimIsTrimmed | server/routes.ts:68 | trim's result has no white space at either end, and it is empty exactly when the text is all white space |
| Js.TrimRemovesOnlyWhiteSpace | server/routes.ts:72 | trim returns a contiguous middle part of the text, and everything it removes before and after is white space |
| Js.TrimTrimmed | server/routes.ts:146 | text with no white space at its ends is left unchanged |
| Js.TrimIdempotent | server/routes.ts:148 | trimming twice is trimming once |
| Storage.IndexOfId | server/storage.ts:37-39 | the lookup by key is absent exactly when no code has that id; otherwise it is the first position holding the id |
| Storage.CodeById | server/storage.ts:37-39 | getCodeById is undefined exactly when no stored code has the id; otherwise it returns a stored code with that id |
| Storage.IndexOfUniqueId | server/storage.ts:37-39 | with unique keys, looking up a stored code's id finds that very code at its position |
| Storage.CodeByValue | server/storage.ts:41-43 | getCodeByValue is undefined exactly when no code has the value; otherwise it returns the earliest-inserted one; under the declared uniqueness, that is the only one |
| Storage.IndexOfValue | server/storage.ts:41-43 | the first position whose code has the value, and absent exactly when none has it |
| Storage.DuplicateValueShadowed | server/storage.ts:56-68 | createCode does not check that a value is new; a later code with a stored value stays invisible to getCodeByValue |
| Storage.AdminByUsername | server/storage.ts:116-118 | getAdminByUsername is undefined exactly when no admin has the name; otherwise it returns a stored admin with it; with unique names, that is the only one |
| Storage.IndexOfUsername | server/storage.ts:116-118 | the first admin position with the name, and absent exactly when none has it |
| Storage.CodesByStatus | server/storage.ts:33-35 | a code is in getCodesByStatus's result exactly when it is stored with that status; the result is never longer than the store |
| Storage.FilterMultiplicity | server/storage.ts:33-35 | the filter holds each code with the status as many times as the store does, and no other code |
| Storage.FilterConcat | server/storage.ts:33-35 | the filter keeps insertion order: filtering a store made of two parts gives the first part's matches, then the second's |
| Storage.CountWithSnoc | server/storage.ts:56-68 | storing one more code raises the number of codes with its status by one and leaves the other counts alone |
| Storage.FilterCount | server/storage.ts:29-35 | the filter's length is the number of stored codes with that status |
| Storage.FirstWithStatus | server/storage.ts:33-35 | the earliest position with the status, and absent exactly when no code has it |
| Storage.FilterHead | server/storage.ts:51-54 | the filtered list is empty exactly when no code has the status; otherwise its head is the earliest-inserted code with it |
| Storage.NextAvailableCode | server/storage.ts:51-54 | getNextAvailableCode is undefined exactly when no code is available; otherwise it is the earliest-inserted available code |
| Storage.AvailableCodesCount | server/storage.ts:29-31 | the count is the number of stored codes whose status is available; it is zero exactly when getNextAvailableCode is undefined |
| Storage.StatusCountsPartition | server/storage.ts:105-113 | the four per-status counts plus the count of unknown statuses add up to the store size |
| Storage.Statistics | server/storage.ts:105-113 | total is the store size; each of available, distributed, used and invalid is the number of stored codes with that status, and available equals getAvailableCodesCount; the four counts sum to at most total, and to exactly total when no status is unknown |
| Storage.InsertNewest | server/storage.ts:45-49 | inserting into a newest-first list keeps it newest-first and adds exactly that code |
| Storage.NewerThanRest | server/storage.ts:45-49 | a code older than the head goes after it without breaking the newest-first order |
| Storage.AllCodes | server/storage.ts:45-49 | getAllCodes returns a permutation of the stored codes, with dateAdded never increasing along the list |
| Storage.NewCode | server/storage.ts:56-65 | createCode's record carries the given id, value and date, the given status text or "available" when it is missing or empty, and null distribution columns |
| Storage.AvailableCodeIsNew | server/storage.ts:56-68 | createCode with status "available" builds an available code under the given id, with the request's date and null distribution columns |
| Storage.FreshCodesAt | server/storage.ts:56-68 | successive createCode calls for a list of values give, in order, one code per value: available, under the next ids, with null distribution columns |
| Storage.FreshCodesDistinct | server/storage.ts:57 | codes created after a store with issued keys have ids new to the store and distinct from one another |
| Storage.FreshCodesKeepInvariant | server/storage.ts:56-68 | appending freshly created codes keeps the store invariant |
| Storage.FreshCodesAppend | server/storage.ts:56-68 | one more value gives exactly one more code, under the next id |
| Storage.FreshCodesEvolve | server/storage.ts:56-68 | creating codes puts no earlier code back in the pool |
| Storage.ValidTransitions | server/storage.ts:79-84 | exactly the four known statuses have a table entry; every listed target is a known status later in the lifecycle available, distributed, used, invalid; every status but invalid may move to invalid |
| Storage.TransitionAllowed | server/storage.ts:79-89 | keeping the current status is always allowed; nothing moves into available; invalid is terminal; an unknown status may only stay as it is; an allowed move never goes back in the lifecycle |
| Storage.StatusUpdate | server/storage.ts:70-99 | the store size never changes; the result is undefined exactly for an unknown id, an update exactly when the transition is allowed, and otherwise nothing changes; an updated code is stored under that id with the requested status text |
| Storage.WithStatus | server/storage.ts:91-96 | the updated record keeps id, value and dateAdded, carries the requested status text, and takes each distribution column from the call when given, otherwise keeps the old one |
| Storage.StatusUpdateSpec | server/storage.ts:70-99 | the update returns undefined exactly for an unknown id and throws exactly for a disallowed transition, changing nothing in both cases; otherwise it replaces that code in place with the new status, its id, value and dateAdded kept, and a date or link that is omitted keeps its old value |
| Storage.StatusUpdateAt | server/storage.ts:86-98 | with unique keys, an allowed update of the code at one position replaces exactly that position |
| Storage.IndexOfIdAppend | server/storage.ts:37-39 | codes appended later do not hide a code already stored |
| Storage.MarkUsed | server/storage.ts:79-98 | marking a stored code used succeeds exactly when it is distributed or already used, and changes only its status; otherwise the update throws and nothing changes |
| Storage.OnlyTargetUpdated | server/storage.ts:91-97 | an update leaves every other code as it was and keeps the store size |
| Storage.Removal | server/storage.ts:101-103 | deleteCode returns true exactly when the id was present; it then removes one code under that id and the others keep their order, and otherwise nothing changes; with unique keys the codes left are exactly the others |
| Storage.DropKeepsFirstWithStatus | server/storage.ts:33-35 | dropping a code other than the earliest with a status keeps that code the earliest with it |
| Storage.RemovalKeepsNextAvailable | server/storage.ts:101-103 | deleting any code but the next one to be handed out leaves getNextAvailableCode (lines 51-54) unchanged |
| Storage.RemovalMembers | server/storage.ts:101-103 | dropping one position leaves exactly the codes under the other ids |
| Storage.EvolvesRefl | server/storage.ts:79-84 | a state trivially follows itself |
| Storage.EvolvesTrans | server/storage.ts:79-84 | "nothing returns to the pool" composes across successive operations |
| Storage.InvariantAcrossIssue | server/storage.ts:57 | issuing one more id keeps every stored id issued |
| Storage.AddCodeKeepsInvariant | server/storage.ts:56-68 | a createCode step keeps the store invariant, uses an id no stored code has, and returns nothing to the pool |
| Storage.AddAdminKeepsInvariant | server/storage.ts:120-125 | a createAdmin step keeps the invariant and uses an id no stored admin has |
| Storage.ReplaceKeepsInvariant | server/storage.ts:91-98 | replacing a code under the same id keeps the invariant and returns nothing to the pool |
| Storage.DropKeepsInvariant | server/storage.ts:101-103 | deleting a code keeps the invariant and returns nothing to the pool |
| Storage.StatusUpdateEvolves | server/storage.ts:79-98 | no status update puts a code back in the pool |
| Storage.RemovalEvolves | server/storage.ts:101-103 | no deletion puts a code back in the pool |
| Storage.CreateKeepsUniqueValues | shared/schema.ts:8 | the store does not enforce the declared uniqueness of code values: it survives createCode only when the caller made sure the value is new |
| Storage.LeftPoolNeverAllocated | server/storage.ts:51-54 | once a code is not available, no later state that follows reaches getCodesByStatus('available') or getNextAvailableCode under its id |
| Storage.MemStorage.constructor | server/storage.ts:24-27 | a new store is empty and valid |
| Storage.MemStorage.CreateCode | server/storage.ts:56-68 | appends exactly one code under the next id, with the insert's value, its status or the default, the request's date and null distribution columns; admins are unchanged |
| Storage.MemStorage.UpdateCodeStatus | server/storage.ts:70-99 | returns and leaves exactly what StatusUpdate says, keeps the invariant, and returns nothing to the pool |
| Storage.MemStorage.DeleteCode | server/storage.ts:101-103 | returns and leaves exactly what Removal says, keeps the invariant, and returns nothing to the pool |
| Storage.MemStorage.CreateAdmin | server/storage.ts:120-125 | appends one admin under a fresh id that no stored admin has, keeps the codes and the invariant |
| Routes.Authorized | server/routes.ts:120-125 | requireAdmin lets a request through exactly when the session's adminId is truthy |
| Routes.EntryKinds | server/routes.ts:68 | every entry is exactly one of: creatable, a non-string that makes trim throw, or blank |
| Routes.FirstNotCreatableSpec | server/routes.ts:67-70 | the submit loop stores every entry before the stop position, and the entry there is not creatable |
| Routes.FirstNotTextSpec | server/routes.ts:145-146 | the admin-add loop passes every entry before the stop position, and the entry there makes trim throw |
| Routes.CreatedFromStep | server/routes.ts:67-76 | a creatable entry appends one available code with the trimmed text under the next id |
| Routes.CreatedFromSkip | server/routes.ts:146 | an entry that is not creatable adds no code |
| Routes.CreatableTextsTrimmed | server/routes.ts:146-148 | every stored text is non-blank and has no white space at either end |
| Routes.CreatableTextsAll | server/routes.ts:67-72 | when the first k entries are all creatable, each gives its own trimmed text, in order |
| Routes.CreatedFromAll | server/routes.ts:67-76 | when the first k entries are all creatable, the j-th created code holds the j-th trimmed entry, is available, and has the j-th new id |
| Routes.GetStats | server/routes.ts:28-35 | answers 200 with getStatistics of the whole store |
| Routes.RequestCode | server/routes.ts:37-56 | without a token: 400 and no change; with no available code: 404 and no change; otherwise the earliest-inserted available code becomes distributed with the request's date, its value and id are returned, and the update never throws |
| Routes.StoreContributed | server/routes.ts:66-77 | stores the entries in order up to the first one that is not creatable, and returns that entry's error (400 when blank, 500 when not text) |
| Routes.Submit | server/routes.ts:58-87 | answers and leaves the store exactly as Submitted says, keeps the invariant, and leaves admins alone |
| Routes.Submitted | server/routes.ts:58-87 | submit answers 200, 400 or 500; it adds at most four codes and never removes one, and takes one new id per code it adds |
| Routes.SubmittedAfterLoop | server/routes.ts:79-83 | after four stored entries, only the marking of the contributor's code remains: 500 when it throws, otherwise 200 |
| Routes.SubmittedEvolves | server/routes.ts:58-87 | submit puts no code back in the pool |
| Routes.SubmitNeedsFour | server/routes.ts:62-64 | unless codes is an array of exactly four: 400 and no change |
| Routes.SubmitStopsAtBadEntry | server/routes.ts:66-77 | at the first bad entry submit fails with 400 when it is blank or 500 when it is not text, yet the entries before it are already stored, trimmed and available, under the next ids |
| Routes.SubmitStoresFour | server/routes.ts:66-83 | four good entries are all stored trimmed and available under the next four ids; without a contributor's id, the answer is 200 and nothing else changes |
| Routes.SubmitMarksUsed | server/routes.ts:79-86 | the contributor's stored code moves to used when it was distributed or used, with a 200; any other status makes the update throw, and the 500 comes after the four codes are stored |
| Routes.SubmitIgnoresUnknownId | server/routes.ts:79-83 | a contributor's id that names no code is ignored and the answer is 200 |
| Routes.Login | server/routes.ts:89-108 | an unknown user and a wrong password both give the same 401; a failing comparison gives 500; only a matching password sets the session's adminId, with a 200 |
| Routes.ListCodes | server/routes.ts:120-134 | without an admin session: 401; otherwise 200 with every stored code, newest first |
| Routes.StoreEntries | server/routes.ts:144-153 | stores the non-blank entries, trimmed, in input order, up to the first entry that makes trim throw, and returns exactly the codes it created and where it stopped |
| Routes.AddCodes | server/routes.ts:136-159 | answers and leaves the store exactly as Added says, keeps the invariant, and leaves admins alone |
| Routes.Added | server/routes.ts:136-159 | admin add answers 200, 400, 401 or 500; it only appends codes, one new id each, and a 200 returns exactly the codes it appended |
| Routes.AddedEvolves | server/routes.ts:136-159 | admin add puts no code back in the pool |
| Routes.AddNeedsCodes | server/routes.ts:140-142 | a missing or empty array gives 400 and no change |
| Routes.AddReturnsCreated | server/routes.ts:144-155 | admin add skips blank entries and stores the rest trimmed, available and under new ids, in input order after the existing codes; it returns exactly the codes it stored, and the keys stay unique |
| Routes.AddStopsAtNonText | server/routes.ts:144-158 | an entry that is not text stops admin add with 500, after the codes before it are stored |
| Routes.PatchCode | server/routes.ts:161-175 | without an admin session: 401 and no change; an unknown id gives 404 and a disallowed transition gives 500, both with no change; otherwise 200 with the updated code |
| Routes.DeleteCode | server/routes.ts:177-190 | without an admin session: 401 and no change; otherwise 200 when the id was present and removed, 404 with no change when it was not |
| Seed.Seeded | server/seed.ts:4-41 | seeding never shrinks the codes or the admins, and takes one new id per record it adds |
| Seed.SeedEmpty | server/seed.ts:7-36 | seeding a store with no codes creates exactly the four demo codes, available, in listed order under the next four ids, whatever admins exist; the default admin with the hashed default password follows under the fifth id only when no admin has that name |
| Seed.SeedKeepsCodes | server/seed.ts:5-7 | when any code exists no code is created; only the default admin may be added |
| Seed.SeedOnlyAppends | server/seed.ts:4-41 | seeding never modifies or deletes existing codes or admins; it adds at most four codes and one admin |
| Seed.SeedProvidesAdmin | server/seed.ts:27-36 | after seeding an admin named "admin" exists; an existing one is kept unchanged, and a new one gets the hash of "admin123" |
| Seed.SeedKeepsUsernamesUnique | server/seed.ts:27-36 | seeding never creates a second admin with the same name |
| Seed.SeedKeepsInvariant | server/seed.ts:4-41 | seeding keeps the store invariant |
| Seed.SeedIdempotent | server/seed.ts:4-41 | seeding an already seeded store changes nothing, whenever it runs |
| Seed.StoreDemoCodes | server/seed.ts:17-22 | appends the four demo codes in listed order, available, under the next four ids |
| Seed.SeedDatabase | server/seed.ts:4-41 | leaves the store exactly as Seeded says, and keeps the invariant |

## Left out

- The client pages, and the usage-counting allocator they assume: usage counts, feedback, replacement codes, mark-used and contribution links. The server code implements none of it.
- `POST /api/admin/logout` and `GET /api/admin/check` (server/routes.ts:110-118). They only destroy or read the session. The session is kept to its `adminId`, and the session middleware, cookies and HTTP server are not modelled.
- `bcrypt.compare` and `bcrypt.hash`. Login takes the comparison as a function parameter, and `None` stands for a rejected call. Seeding takes the hash as a total function, so a rejected hash during seeding is not modelled.
- `randomUUID`. It is a counter whose n-th id is distinct from every other. Real UUIDs are random, and their uniqueness is assumed rather than proved.
- `new Date()`. A handler or a seeding run reads the clock once, as the `now` parameter. Every code created in one request therefore gets the same `dateAdded`. The source reads the clock again in each `createCode` call, so its dates within one request may differ by a few milliseconds.
- `getAllCodes` compares dates by `getTime()`. Dates are modelled as natural-number milliseconds.
- Promise scheduling and concurrent requests. Every `await` is one sequential step, and requests do not interleave.
- `console.log` output.
- The Drizzle/zod schema machinery beyond the field shapes.
- The `unique()` declarations. `MemStorage` does not enforce them, so they appear as preconditions (`CreateKeepsUniqueValues`, `SeedKeepsUsernamesUnique`) and are not guarantees.
- JSON numbers are integers, so floating-point values such as `NaN` or `0.5` in a request body are not modelled.
- Storage.MemStorage.CreateCode: its contract does not mention `Valid()`. `AddCodeKeepsInvariant` proves that the step keeps it. The loops that call `CreateCode` re-establish the invariant once they finish, using `FreshCodesKeepInvariant`.
- Routes.StoreContributed, Routes.StoreEntries, Seed.StoreDemoCodes: these loop methods do not carry `Valid()` through their iterations. Their callers re-establish it once the loop ends.
