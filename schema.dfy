/** The relational schema: one record type per table, the two enumerations
    with their column defaults, and the constraints the schema declares
    (primary keys, the unique email, foreign keys, 32-bit integer columns)
    gathered into one well-formedness predicate over the whole store. */
module Schema {
  import opened Seqs

  /** Every primary and foreign key column is text (a UUID or a session id). */
  type Id = string

  /** The `role` enum. */
  datatype Role = Admin | User
  /** The default of `user.role`. */
  const DefaultRole: Role := User

  /** The `difficulty` enum. */
  datatype Difficulty = Easy | Medium | Hard
  /** The default of `recipe.difficulty`. */
  const DefaultDifficulty: Difficulty := Easy

  /** The text the store uses for a role; reading it back gives the role. */
  function RoleLabel(r: Role): string {
    match r
    case Admin => "admin"
    case User => "user"
  }

  /** The store's cast of text to the `role` enum; any other text is refused. */
  function ParseRole(s: string): (r: Option<Role>)
    ensures r.Some? ==> RoleLabel(r.value) == s
  {
    if s == "admin" then Some(Admin)
    else if s == "user" then Some(User)
    else None
  }

  /** The text the store uses for a difficulty; reading it back gives it. */
  function DifficultyLabel(d: Difficulty): string {
    match d
    case Easy => "easy"
    case Medium => "medium"
    case Hard => "hard"
  }

  /** The store's cast of text to the `difficulty` enum; any other text is refused. */
  function ParseDifficulty(s: string): (r: Option<Difficulty>)
    ensures r.Some? ==> DifficultyLabel(r.value) == s
  {
    if s == "easy" then Some(Easy)
    else if s == "medium" then Some(Medium)
    else if s == "hard" then Some(Hard)
    else None
  }

  /** Every role's text is read back as that role. */
  lemma RoleLabelParses(r: Role)
    ensures ParseRole(RoleLabel(r)) == Some(r)
  {
  }

  /** Every difficulty's text is read back as that difficulty. */
  lemma DifficultyLabelParses(d: Difficulty)
    ensures ParseDifficulty(DifficultyLabel(d)) == Some(d)
  {
  }

  /** The range of a Postgres `integer` column. */
  predicate Int32(n: int) {
    -0x8000_0000 <= n < 0x8000_0000
  }

  datatype UserRow = UserRow(id: Id, email: string, name: string, role: Role, passwordHash: string)

  /** `expiresAt` is a timestamp in milliseconds. */
  datatype SessionRow = SessionRow(id: Id, userId: Id, expiresAt: int)

  /** `images` is a nullable text array, left null by every handler modelled here. */
  datatype RecipeRow = RecipeRow(
    id: Id,
    name: string,
    description: Option<string>,
    instructions: Option<string>,
    servings: int,
    prepTime: int,
    cookTime: int,
    images: Option<seq<string>>,
    difficulty: Difficulty,
    createdBy: Id)

  datatype IngredientRow = IngredientRow(id: Id, name: string, description: Option<string>)

  datatype RecipeIngredientRow = RecipeIngredientRow(
    id: Id, recipeId: Id, ingredientId: Id, amount: Option<string>, unit: Option<string>)

  datatype SavedRecipeRow = SavedRecipeRow(id: Id, userId: Id, recipeId: Id)

  datatype FridgeItemRow = FridgeItemRow(id: Id, userId: Id, ingredientId: Id)

  /** The seven tables, each in its row order. */
  datatype Tables = Tables(
    users: seq<UserRow>,
    sessions: seq<SessionRow>,
    recipes: seq<RecipeRow>,
    ingredients: seq<IngredientRow>,
    recipeIngredients: seq<RecipeIngredientRow>,
    savedRecipes: seq<SavedRecipeRow>,
    fridgeItems: seq<FridgeItemRow>)

  // Key columns, as functions so that every constraint names the same column.
  function UserKey(u: UserRow): Id { u.id }
  function UserEmail(u: UserRow): string { u.email }
  function SessionKey(s: SessionRow): Id { s.id }
  function RecipeKey(r: RecipeRow): Id { r.id }
  function IngredientKey(i: IngredientRow): Id { i.id }
  function RecipeIngredientKey(ri: RecipeIngredientRow): Id { ri.id }
  function SavedRecipeKey(sr: SavedRecipeRow): Id { sr.id }
  function FridgeItemKey(fi: FridgeItemRow): Id { fi.id }

  function UserIds(t: Tables): set<Id> { Keys(UserKey, t.users) }
  function RecipeIds(t: Tables): set<Id> { Keys(RecipeKey, t.recipes) }
  function IngredientIds(t: Tables): set<Id> { Keys(IngredientKey, t.ingredients) }

  /** Every table's `id` column is a primary key. */
  predicate PrimaryKeysUnique(t: Tables) {
    && KeysUnique(UserKey, t.users)
    && KeysUnique(SessionKey, t.sessions)
    && KeysUnique(RecipeKey, t.recipes)
    && KeysUnique(IngredientKey, t.ingredients)
    && KeysUnique(RecipeIngredientKey, t.recipeIngredients)
    && KeysUnique(SavedRecipeKey, t.savedRecipes)
    && KeysUnique(FridgeItemKey, t.fridgeItems)
  }

  /** `user.email` is declared unique. */
  predicate EmailsUnique(t: Tables) {
    KeysUnique(UserEmail, t.users)
  }

  /** Every `references(...)` column names an existing row. */
  predicate ForeignKeysHold(t: Tables) {
    && (forall s :: s in t.sessions ==> s.userId in UserIds(t))
    && (forall r :: r in t.recipes ==> r.createdBy in UserIds(t))
    && (forall ri :: ri in t.recipeIngredients ==>
          ri.recipeId in RecipeIds(t) && ri.ingredientId in IngredientIds(t))
    && (forall sr :: sr in t.savedRecipes ==> sr.userId in UserIds(t) && sr.recipeId in RecipeIds(t))
    && (forall fi :: fi in t.fridgeItems ==> fi.userId in UserIds(t) && fi.ingredientId in IngredientIds(t))
  }

  /** The `integer` columns of a recipe hold 32-bit values. */
  predicate FitsColumns(r: RecipeRow) {
    Int32(r.servings) && Int32(r.prepTime) && Int32(r.cookTime)
  }

  /** Everything the schema declares holds of the store's contents; then no
      two users share an email or an id. */
  predicate WellFormed(t: Tables)
    ensures WellFormed(t) ==>
      forall u, v :: u in t.users && v in t.users && (u.email == v.email || u.id == v.id) ==> u == v
  {
    assert PrimaryKeysUnique(t) && EmailsUnique(t) ==>
      forall u, v :: u in t.users && v in t.users && (u.email == v.email || u.id == v.id) ==> u == v
    by {
      if PrimaryKeysUnique(t) && EmailsUnique(t) {
        UsersAreDistinct(t);
      }
    }
    && PrimaryKeysUnique(t)
    && EmailsUnique(t)
    && ForeignKeysHold(t)
    && (forall r :: r in t.recipes ==> FitsColumns(r))
  }

  /** Under the user table's primary key and unique email, a user row is
      named by its id and by its email alike. */
  lemma UsersAreDistinct(t: Tables)
    requires KeysUnique(UserKey, t.users) && KeysUnique(UserEmail, t.users)
    ensures forall u, v :: u in t.users && v in t.users && (u.email == v.email || u.id == v.id) ==> u == v
  {
    forall u, v | u in t.users && v in t.users && (u.email == v.email || u.id == v.id) ensures u == v {
      if u.email == v.email {
        UniqueKeyNamesOneRow(UserEmail, t.users, u, v);
      } else {
        UniqueKeyNamesOneRow(UserKey, t.users, u, v);
      }
    }
  }

  /** The store with no rows at all. */
  const Empty := Tables([], [], [], [], [], [], [])

  /** The empty store is well formed. */
  lemma EmptyWellFormed()
    ensures WellFormed(Empty)
  {
  }

  /** Under the schema's constraints, a user id or an email names at most one user row. */
  lemma {:induction false} UniqueKeyNamesOneRow<T>(key: T -> Id, s: seq<T>, x: T, y: T)
    requires KeysUnique(key, s)
    requires x in s && y in s && key(x) == key(y)
    ensures x == y
  {
    if s[0] != x && s[0] != y {
      UniqueKeyNamesOneRow(key, s[1..], x, y);
    }
  }
}
