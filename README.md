# The Fridge — a Dafny model of its server logic

The Fridge is a SvelteKit recipe application backed by PostgreSQL through
Drizzle. This project models its server-side core:

- **The store** (`schema.dfy`, `database.dfy`). The seven tables of
  `src/lib/server/db/schema.ts` are row datatypes. The `role` and `difficulty`
  enums are closed datatypes with their defaults. The primary keys, the
  unique email and the foreign keys are one well-formedness predicate,
  `Schema.WellFormed`. The 32-bit `integer` columns are a range check.
  `Database.Db` is a class with one sequence field per table. Each `insert`
  and `delete` the handlers issue is a method that either applies the change
  or refuses it, as Postgres does, when it would break a declared constraint.
  Every such statement keeps the store well formed. The `select`s only read,
  so they are functions of the tables.
- **The recipe join** (`recipe_join.dfy`). Both loaders build the same
  in-memory join: `filter` by recipe id, `map` through `find`, then
  `filter(Boolean)`. It is modelled once, with the JavaScript array methods
  as generic functions in `seqs.dfy`.
- **The recipes page** (`recipes_page.dfy`). Its `load` is a function of the
  tables. Its `create` and `delete` actions are methods over `Db` with the
  handlers' early returns. Each method is proved equal to a pure `…Outcome`
  function, which returns the response and the tables afterwards. The lemmas
  state what those functions promise.
- **The home page loader** (`app_page.dfy`).
- **The sign-in page** (`auth_page.dfy`). It covers:
  - the three validators, including the email regex
    `^[^\s@]+@[^\s@]+\.[^\s@]+$` as a string predicate;
  - the `login` and `register` decision sequences;
  - the loader's redirect.

SvelteKit's `fail`, `error` and `redirect` become the `Kit.Response`
datatype:
- `Fail` is a returned `fail(...)`.
- `Error` is a thrown `error(...)`, or an exception that escapes a handler
  (SvelteKit answers that with 500 "Internal Error").
- `Redirect` is a redirect.

The sign-in page's form fields are `Kit.FormValue` values (absent, a string,
or a file), so that JavaScript truthiness and the validators'
`typeof … === 'string'` guard are explicit. The recipes page casts its fields
to `string` without checking; there a field is a string that is present or
absent.

Several inputs come from the environment and are parameters in the model:
- **Ids.** The ids the database generates (`gen_random_uuid()`) are given to
  each operation. If one clashes with an existing key, the insert is refused.
- **Sessions.** `$lib/server/auth` is not part of this model. A session's id
  and expiry arrive as a `SessionGrant`, and issuing a session is the
  insertion of its row.
- **Password hashing.** Argon2 `hash` and `verify` are function parameters.

## Model

| member | source | states |
|---|---|---|
| Seqs.Filter | src/routes/app/recipes/+page.server.ts:25 | `Array.prototype.filter`: the result holds exactly the elements of the input that satisfy the predicate, and is no longer than the input (so empty for an empty input) |
| Seqs.FilterAppend | src/routes/app/recipes/+page.server.ts:25 | appending an element to the input appends it to the result exactly when it passes; with the empty case this fixes the result completely, order and repetitions included |
| Seqs.FilterConcat | src/routes/app/recipes/+page.server.ts:25 | filtering a concatenation is the concatenation of the filtered parts |
| Seqs.Map | src/routes/app/recipes/+page.server.ts:26-34 | `Array.prototype.map`: same length, element k is the callback applied to element k |
| Seqs.Somes | src/routes/app/recipes/+page.server.ts:35 | `filter(Boolean)` on entries that are objects or null: exactly the non-null values are kept, never more entries than before (so none for an empty input) |
| Seqs.SomesAppend | src/routes/app/recipes/+page.server.ts:35 | appending an entry appends its value exactly when it is not null; with the empty case this fixes the result completely, order and repetitions included |
| Seqs.Find | src/routes/app/recipes/+page.server.ts:27 | `Array.prototype.find`: nothing is found exactly when no element satisfies the predicate; otherwise the result is the first element that does |
| Schema.ParseRole | src/lib/server/db/schema.ts:4 | the `role` enum accepts only its labels, each naming the value it parses to |
| Schema.RoleLabelParses | src/lib/server/db/schema.ts:4 | every role's label parses back to that role (`admin`, `user`; the default is `user`, line 10) |
| Schema.ParseDifficulty | src/lib/server/db/schema.ts:21 | the `difficulty` enum accepts only `easy`, `medium` and `hard`, each naming the value it parses to |
| Schema.DifficultyLabelParses | src/lib/server/db/schema.ts:21 | every difficulty's label parses back to it (the default is `easy`, line 32) |
| Schema.WellFormed | src/lib/server/db/schema.ts:6-60 | every declared primary key, the unique email, every foreign key and the 32-bit integer range hold; then no two users share an email or an id |
| Schema.UsersAreDistinct | src/lib/server/db/schema.ts:7-8 | under the user primary key and the unique email, a user row is named by its id and by its email alike |
| Schema.EmptyWellFormed | src/lib/server/db/schema.ts:6-60 | the empty store satisfies every key and reference constraint |
| Schema.UniqueKeyNamesOneRow | src/lib/server/db/schema.ts:8 | under a unique column, two rows with the same value are the same row (used for the unique email) |
| Database.SelectUsersByEmail | src/routes/auth/+page.server.ts:35-38 | the select by email returns exactly the users with that email and, under the unique email, at most one |
| Database.AtMostOneWithEmail | src/lib/server/db/schema.ts:8 | a user table whose emails are unique has at most one row with any given email |
| Database.AddUserKeepsWellFormed | src/lib/server/db/schema.ts:6-12 | inserting a user with a new id and a new email keeps ids and emails unique and every reference intact |
| Database.AddSessionKeepsWellFormed | src/lib/server/db/schema.ts:14-18 | inserting a session with a new id for an existing user keeps the store well formed |
| Database.AddRecipeKeepsWellFormed | src/lib/server/db/schema.ts:23-34 | inserting a recipe with a new id, an existing author and 32-bit integers keeps the store well formed |
| Database.AddRecipeIngredientsKeepsWellFormed | src/lib/server/db/schema.ts:42-48 | one multi-row insert of join rows with fresh, distinct ids naming existing recipes and ingredients keeps the store well formed |
| Database.DeleteRecipeIngredientsKeepsWellFormed | src/routes/app/recipes/+page.server.ts:110 | deleting a recipe's join rows keeps the store well formed (nothing references join rows) |
| Database.DeleteRecipeKeepsWellFormed | src/lib/server/db/schema.ts:44-53 | deleting a recipe that no saved recipe and no join row references keeps the store well formed |
| Database.Db.constructor | src/lib/server/db/schema.ts:6-60 | a store holding the given tables |
| Database.Db.InsertUser | src/routes/auth/+page.server.ts:106-110 | the insert succeeds exactly when the id and email are new; on success the row is appended, otherwise nothing changes; well-formedness is kept |
| Database.Db.InsertSession | src/lib/server/db/schema.ts:14-18 | the insert succeeds exactly when the id is new and the user exists; on success the row is appended, otherwise nothing changes; well-formedness is kept |
| Database.Db.InsertRecipe | src/routes/app/recipes/+page.server.ts:66-75 | the insert succeeds exactly when the id is new, the author exists and the integers fit; on success the row is appended, otherwise nothing changes; well-formedness is kept |
| Database.Db.InsertRecipeIngredients | src/routes/app/recipes/+page.server.ts:79-86 | all rows or none: they are appended exactly when their ids are fresh and distinct and every reference resolves; well-formedness is kept |
| Database.Db.DeleteRecipeIngredients | src/routes/app/recipes/+page.server.ts:110 | removes exactly the join rows of that recipe, is never refused, and keeps the store well formed |
| Database.Db.DeleteRecipe | src/routes/app/recipes/+page.server.ts:113 | removes the recipe unless a saved recipe or join row still references it (no cascade), in which case nothing changes; well-formedness is kept |
| RecipeJoin.ResolveRow | src/routes/app/recipes/+page.server.ts:26-34 | a join row resolves to nothing exactly when no ingredient has its ingredient id; otherwise to `{id, name}` of the FIRST ingredient with that id plus the row's `amount` and `unit` |
| RecipeJoin.IngredientsOf | src/routes/app/recipes/+page.server.ts:24-35 | a recipe's list: every entry carries the id and name of an existing ingredient, and there are never more entries than join rows |
| RecipeJoin.ResolvedEntriesNameIngredients | src/routes/app/recipes/+page.server.ts:26-35 | every entry that survives `filter(Boolean)` names an existing ingredient by its id and name |
| RecipeJoin.AssembleRecipes | src/routes/app/recipes/+page.server.ts:22-36 | one view per recipe, in table order, each keeping every column of its row and carrying that recipe's ingredient list |
| RecipeJoin.IngredientsOfConcat | src/routes/app/recipes/+page.server.ts:24-35 | the list follows join-table order: splitting the join table splits the list at the same point |
| RecipeJoin.IngredientsOfOne | src/routes/app/recipes/+page.server.ts:24-35 | a single join row contributes its entry if it belongs to the recipe and resolves, and nothing otherwise |
| RecipeJoin.IngredientsOfAppend | src/routes/app/recipes/+page.server.ts:24-35 | appending a join row appends exactly its contribution to the list |
| RecipeJoin.UnresolvedRowIsDropped | src/routes/app/recipes/+page.server.ts:27-35 | a join row whose ingredient id matches no ingredient is dropped silently: removing it changes nothing |
| RecipeJoin.IngredientsOfMembers | src/routes/app/recipes/+page.server.ts:24-35 | an entry is in a recipe's list if and only if some join row of that recipe resolves to it |
| RecipeJoin.MemberComesFromRow | src/routes/app/recipes/+page.server.ts:24-35 | every listed entry comes from a join row whose recipe id is the recipe's |
| RecipeJoin.RowGivesMember | src/routes/app/recipes/+page.server.ts:24-35 | every resolving join row of the recipe gives an entry of the list |
| RecipeJoin.IngredientsOfLength | src/routes/app/recipes/+page.server.ts:24-35 | the list is never longer than the recipe's join rows, and exactly as long when each of them names an existing ingredient |
| RecipeJoin.NothingDroppedWhenWellFormed | src/lib/server/db/schema.ts:45 | under the ingredient foreign key nothing is dropped: one entry per join row of the recipe |
| RecipesPage.Load | src/routes/app/recipes/+page.server.ts:7-42 | 401 without a user; otherwise every recipe in table order with its row and its ingredient list, and the whole ingredient table unchanged |
| RecipesPage.CreateOutcome | src/routes/app/recipes/+page.server.ts:45-94 | `create` touches only the recipe and join tables, keeps every row they held, in place and in order, and only appends after them; every answer except success and "Failed to create recipe" leaves the store as it was |
| RecipesPage.Create | src/routes/app/recipes/+page.server.ts:45-94 | the response and the new store are those of `CreateOutcome`, and well-formedness is kept |
| RecipesPage.CreateNeedsUser | src/routes/app/recipes/+page.server.ts:46-48 | without a user: 401 and no table changed |
| RecipesPage.CreateRejectsMissingFields | src/routes/app/recipes/+page.server.ts:54-62 | an empty name, instructions or difficulty, or servings, prep or cook time that parses to 0 or NaN (`RecipesPage.HasRequiredFields`, the test of line 60 fails): "Missing required fields" and nothing inserted |
| RecipesPage.CreateSuccess | src/routes/app/recipes/+page.server.ts:66-89 | on success: exactly one recipe appended, authored by the user, with the form's fields; one join row per submitted ingredient in order, each naming the new recipe (none for an empty list); every other table unchanged |
| RecipesPage.CreateRefusedRecipeChangesNothing | src/routes/app/recipes/+page.server.ts:64-75 | a form that passes the field check but whose recipe row the store refuses (difficulty outside the enum, clashing id, unknown author, integer out of range) gets "Failed to create recipe" and the store is exactly as before |
| RecipesPage.CreateIsNotAtomic | src/routes/app/recipes/+page.server.ts:64-93 | whenever the join-row insert is refused, for whatever reason, the answer is "Failed to create recipe" yet the recipe row stays |
| RecipesPage.CreateWithUnknownIngredientLeavesRecipe | src/routes/app/recipes/+page.server.ts:64-93 | in particular a submitted ingredient id that names no ingredient leaves a recipe without ingredients behind |
| RecipesPage.CreateKeepsWellFormed | src/routes/app/recipes/+page.server.ts:45-94 | `create` keeps the store well formed on every path |
| RecipesPage.DeleteOutcome | src/routes/app/recipes/+page.server.ts:96-120 | `delete` touches only the recipe and join tables and never adds a row |
| RecipesPage.Delete | src/routes/app/recipes/+page.server.ts:96-120 | the response and the new store are those of `DeleteOutcome`, and well-formedness is kept |
| RecipesPage.DeleteRejects | src/routes/app/recipes/+page.server.ts:97-106 | without a user (401) or without a recipe id ("Missing recipe ID") nothing changes |
| RecipesPage.DeleteSuccess | src/routes/app/recipes/+page.server.ts:108-115 | on success: a join row or recipe remains if and only if it was there and does not belong to the deleted id; all other tables unchanged |
| RecipesPage.DeleteUnknownIsNoop | src/routes/app/recipes/+page.server.ts:108-115 | deleting an id no recipe has succeeds and changes nothing |
| RecipesPage.DeleteIndependentOfUser | src/routes/app/recipes/+page.server.ts:96-120 | no ownership check: the answer and the store afterwards are the same whichever signed-in user asks |
| RecipesPage.DeleteIgnoresOwnership | src/routes/app/recipes/+page.server.ts:96-120 | any signed-in user can delete a recipe authored by someone else |
| RecipesPage.DeleteBlockedBySavedRecipe | src/routes/app/recipes/+page.server.ts:108-119 | while a saved recipe references it, deletion fails with "Failed to delete recipe" after the recipe's join rows are already gone; the recipe stays |
| RecipesPage.DeleteKeepsWellFormed | src/routes/app/recipes/+page.server.ts:96-120 | `delete` keeps the store well formed on every path |
| AppPage.Load | src/routes/app/+page.server.ts:6-45 | without a user, a redirect to `/auth` whatever the store holds; otherwise every recipe in table order with its row and its ingredient list |
| AppPage.LoadAgreesWithRecipesPage | src/routes/app/+page.server.ts:22-36 | both loaders give a signed-in user the same recipe list |
| AuthPage.ValidateEmail | src/routes/auth/+page.server.ts:140-147 | a valid email is a string of 5 to 255 characters containing an '@' and a '.'; the pattern test itself is `AuthPage.MatchesEmailPattern`, the regex of line 145 |
| AuthPage.ValidatePassword | src/routes/auth/+page.server.ts:149-155 | a valid password is exactly a string of 6 to 255 characters, and is therefore truthy |
| AuthPage.ValidateName | src/routes/auth/+page.server.ts:157-163 | a valid name is exactly a string of 1 to 100 characters, and is therefore truthy |
| AuthPage.PatternGivesShape | src/routes/auth/+page.server.ts:145 | a match of the email pattern has no whitespace, a single '@', and a '.' strictly inside the part after it |
| AuthPage.ShapeGivesPattern | src/routes/auth/+page.server.ts:145 | such a string matches the pattern, with its '.' at the given place |
| AuthPage.ValidateEmailMeaning | src/routes/auth/+page.server.ts:140-147 | `validateEmail` holds iff the value is a string of 3 to 255 characters with no whitespace and exactly one '@', with text before it, and a '.' after it that is neither first nor last in the part after the '@' |
| AuthPage.NonTextFailsValidation | src/routes/auth/+page.server.ts:140-163 | a missing field or a file upload fails all three validators |
| AuthPage.PatternImpliesMinimumLength | src/routes/auth/+page.server.ts:143-145 | the pattern alone forces at least 5 characters, so the 3-character bound never decides anything |
| AuthPage.Load | src/routes/auth/+page.server.ts:15-20 | a signed-in visitor is redirected (302) to `/app`; anyone else gets the page |
| AuthPage.LoginOutcome | src/routes/auth/+page.server.ts:23-65 | `login` touches only the session table, and changes it only on success, by exactly one row |
| AuthPage.Login | src/routes/auth/+page.server.ts:23-65 | the response and the new store are those of `LoginOutcome`, and well-formedness is kept |
| AuthPage.LoginChecksFormatFirst | src/routes/auth/+page.server.ts:28-33 | an invalid email, then an invalid password, is answered before any lookup, whatever the store holds, and changes nothing |
| AuthPage.LoginFailsUniformly | src/routes/auth/+page.server.ts:40-53 | an unknown email and a wrong password both get "Incorrect email or password", and no session is created |
| AuthPage.LoginSuccess | src/routes/auth/+page.server.ts:55-64 | on success, the user with that email exists and the password checks against its hash; exactly one session for that user is added; the answer names `/app` rather than redirecting |
| AuthPage.LoginKeepsWellFormed | src/routes/auth/+page.server.ts:23-65 | `login` keeps the store well formed |
| AuthPage.NewUserIsFound | src/routes/auth/+page.server.ts:112-121 | after inserting a user with a new email, selecting by that email finds exactly that row, so "Failed to create user" cannot happen |
| AuthPage.RegisterOutcome | src/routes/auth/+page.server.ts:66-137 | `register` touches only the user and session tables, keeps every row they held, in place and in order, and appends at most one row to each; a rejected form (400) changes nothing |
| AuthPage.Register | src/routes/auth/+page.server.ts:66-137 | the response and the new store are those of `RegisterOutcome`, and well-formedness is kept |
| AuthPage.RegisterChecksInOrder | src/routes/auth/+page.server.ts:71-84 | the checks run in order (email, password, confirmation, name, where the name defaults to the email) and each failure changes nothing |
| AuthPage.RegisterRejectsTakenEmail | src/routes/auth/+page.server.ts:86-94 | an email some user already has gets "An account with this email already exists"; nothing is inserted |
| AuthPage.RegisterLongEmailNeedsName | src/routes/auth/+page.server.ts:71-84 | with no name given, a valid email longer than 100 characters fails name validation |
| AuthPage.RegisterSuccess | src/routes/auth/+page.server.ts:96-132 | on success the email was free and the passwords matched; exactly one user (the given name or the email, role `user`, the password's hash) and one session for it are added; the welcome message names `/app` |
| AuthPage.RegisterUserRefusedChangesNothing | src/routes/auth/+page.server.ts:104-110 | a form that passes every check for a free email but whose user row the store refuses gets "An error has occurred" and the store is exactly as before |
| AuthPage.RegisterSessionRefusedKeepsUser | src/routes/auth/+page.server.ts:104-136 | when the user row is accepted but the session row is refused, the answer is "An error has occurred" yet the store holds the new user: the two inserts are not one transaction |
| AuthPage.RegisterKeepsWellFormed | src/routes/auth/+page.server.ts:66-137 | `register` keeps the store well formed |
| AuthPage.RegisterThenLogin | src/routes/auth/+page.server.ts:23-137 | when `verify` accepts a hash made from a password, a user who has just registered can log in with the same email and password |

## Left out

- The profile page (`src/routes/app/profile/+page.server.ts`) and the seed data (`src/lib/data/recipes.ts`) are not part of this model. The first only counts rows through the ORM; the second has no behaviour.
- Argon2 is not modelled. `hash` and `verify` are parameters. A `verify` that throws on a malformed stored hash is not modelled.
- Session tokens, `createSession` and the session cookie are not modelled, because `$lib/server/auth` is not part of this model. Only the inserted session row is kept, with its id and expiry as parameters.
- The database connection, `async`/`await`, and concurrent requests are not modelled. Each handler runs alone against in-memory tables. A select never fails, so `AppPage.Load` has no path to its catch branch ("Failed to load recipes", 500).
- `JSON.parse` of the `ingredients` field is not modelled; the parsed list is an input of `RecipesPage.Create`. Two consequences are lost:
  - Malformed JSON throws before validation, because the parse is outside the `try`.
  - A parsed value that is not an array is not represented.
- `RecipesPage.Create` does not model exact `parseInt` lexing. Each number field is already reduced to "NaN or an integer".
- `RecipesPage.Create` takes its text fields as strings that are present or absent. A file upload in those fields is not modelled.
- Difficulty labels outside `easy`, `medium` and `hard` are refused by the store as an invalid enum value (500). This is treated like any other refused insert.
- The nullable `role` and `difficulty` columns always hold a value in the model. The handlers never store null there.
- Lengths are counted in characters, not in the UTF-16 code units JavaScript's `.length` counts. The two differ for characters outside the Basic Multilingual Plane.
- `console.error` logging is not modelled.
- The selects have no `ORDER BY`. The model takes every select to return rows in the order they were inserted, with each insert appending at the end. Every "table order" and "join-table order" statement rests on that; Postgres itself does not promise any order.
- `RecipesPage.Delete` takes its `recipeId` field as a string that is present or absent. A file upload in that field (truthy, then compared with the id column) is not modelled.
- `fail(...)` on the recipes page carries `{ error }` and on the sign-in page `{ message }`. `Kit.Response.Fail` keeps the status and the text but not which key holds it.
