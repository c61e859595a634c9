/** The recipes page (`/app/recipes`): its loader and its `create` and
    `delete` form actions. Every handler answers 401 without a signed-in user. */
module RecipesPage {
  import opened Seqs
  import opened Kit
  import opened Schema
  import opened Database
  import opened RecipeJoin

  // ---- load ----

  datatype PageData = PageData(recipes: seq<RecipeView>, ingredients: seq<IngredientRow>)

  /** `load`: 401 without a user; otherwise every recipe with its assembled
      ingredient list, and the ingredient table as read. */
  function Load(user: Option<Id>, t: Tables): (r: Response<PageData>)
    ensures user.None? ==> r == Error(401, "Unauthorized")
    ensures user.Some? ==>
      && r.Ok?
      && r.data.ingredients == t.ingredients
      && |r.data.recipes| == |t.recipes|
      && forall k :: 0 <= k < |t.recipes| ==>
           && r.data.recipes[k].recipe == t.recipes[k]
           && r.data.recipes[k].ingredients == IngredientsOf(t.recipes[k].id, t.ingredients, t.recipeIngredients)
  {
    if user.None? then Error(401, "Unauthorized")
    else Ok(PageData(AssembleRecipes(t.recipes, t.ingredients, t.recipeIngredients), t.ingredients))
  }

  // ---- create ----

  /** The result of `parseInt` on a form field: NaN, or an integer. */
  datatype ParsedInt = NaN | Int(value: int)

  /** One element of the JSON-decoded `ingredients` field. */
  datatype IngredientInput = IngredientInput(id: Id, amount: Option<string>, unit: Option<string>)

  /** The fields `create` reads: text fields are None when absent, the three
      numbers are already passed through `parseInt`, and `ingredients` is the
      decoded JSON array. */
  datatype RecipeForm = RecipeForm(
    name: Option<string>,
    description: Option<string>,
    instructions: Option<string>,
    servings: ParsedInt,
    prepTime: ParsedInt,
    cookTime: ParsedInt,
    difficulty: Option<string>,
    ingredients: seq<IngredientInput>)

  /** Truthiness of a text field: present and not empty. */
  predicate Present(v: Option<string>) { v.Some? && v.value != "" }

  /** Truthiness of a parsed number: NaN and 0 are falsy, any other integer
      (negative ones included) is truthy. */
  predicate NonZero(n: ParsedInt) { n.Int? && n.value != 0 }

  /** The negation of `!name || !instructions || !servings || !prepTime || !cookTime || !difficulty`. */
  predicate HasRequiredFields(f: RecipeForm) {
    && Present(f.name)
    && Present(f.instructions)
    && NonZero(f.servings)
    && NonZero(f.prepTime)
    && NonZero(f.cookTime)
    && Present(f.difficulty)
  }

  const MissingFields := "Missing required fields"
  const CreateFailed := "Failed to create recipe"

  datatype Created = Created(recipe: RecipeRow)

  /** The row `insert into recipe … returning` gives back: the generated id,
      the form's fields, no images, and the signed-in user as author. */
  function NewRecipe(id: Id, f: RecipeForm, difficulty: Difficulty, author: Id): RecipeRow
    requires HasRequiredFields(f)
  {
    RecipeRow(id, f.name.value, f.description, f.instructions,
              f.servings.value, f.prepTime.value, f.cookTime.value, None, difficulty, author)
  }

  /** `ingredients.map(ing => ({recipeId, ingredientId: ing.id, amount, unit}))`,
      each row with the id the store generates for it. */
  function JoinRows(recipeId: Id, inputs: seq<IngredientInput>, rowIds: seq<Id>): seq<RecipeIngredientRow>
    requires |rowIds| == |inputs|
  {
    seq(|inputs|, k requires 0 <= k < |inputs| =>
      RecipeIngredientRow(rowIds[k], recipeId, inputs[k].id, inputs[k].amount, inputs[k].unit))
  }

  /** The response of `create` and the store afterwards. `recipeId` and
      `rowIds` are the ids the store generates for the new rows. */
  function CreateOutcome(t: Tables, user: Option<Id>, f: RecipeForm, recipeId: Id, rowIds: seq<Id>)
    : (r: (Response<Created>, Tables))
    requires |rowIds| == |f.ingredients|
    // only the recipe and join tables can change, and neither ever shrinks
    ensures r.1 == t.(recipes := r.1.recipes, recipeIngredients := r.1.recipeIngredients)
    ensures |r.1.recipes| >= |t.recipes| && |r.1.recipeIngredients| >= |t.recipeIngredients|
    ensures r.1.recipes[..|t.recipes|] == t.recipes
    ensures r.1.recipeIngredients[..|t.recipeIngredients|] == t.recipeIngredients
    // every answer but success and "Failed to create recipe" leaves the store as it was
    ensures !r.0.Ok? && r.0 != Fail(500, CreateFailed) ==> r.1 == t
  {
    if user.None? then (Error(401, "Unauthorized"), t)
    else if !HasRequiredFields(f) then (Fail(400, MissingFields), t)
    else match ParseDifficulty(f.difficulty.value)
      // text outside the enum: the store refuses the insert
      case None => (Fail(500, CreateFailed), t)
      case Some(d) =>
        var recipe := NewRecipe(recipeId, f, d, user.value);
        if !RecipeInsertable(t, recipe) then (Fail(500, CreateFailed), t)
        else
          var t1 := AddRecipe(t, recipe);
          if |f.ingredients| == 0 then (Ok(Created(recipe)), t1)
          else
            var rows := JoinRows(recipeId, f.ingredients, rowIds);
            if RecipeIngredientsInsertable(t1, rows) then (Ok(Created(recipe)), AddRecipeIngredients(t1, rows))
            // the recipe row is not rolled back
            else (Fail(500, CreateFailed), t1)
  }

  /** `actions.create`. */
  method Create(db: Db, user: Option<Id>, f: RecipeForm, recipeId: Id, rowIds: seq<Id>)
    returns (r: Response<Created>)
    requires |rowIds| == |f.ingredients|
    modifies db
    ensures (r, db.Snapshot()) == CreateOutcome(old(db.Snapshot()), user, f, recipeId, rowIds)
    ensures WellFormed(old(db.Snapshot())) ==> WellFormed(db.Snapshot())
  {
    if user.None? {
      return Error(401, "Unauthorized");
    }
    if !Present(f.name) || !Present(f.instructions) || !NonZero(f.servings)
       || !NonZero(f.prepTime) || !NonZero(f.cookTime) || !Present(f.difficulty) {
      return Fail(400, MissingFields);
    }
    var difficulty := ParseDifficulty(f.difficulty.value);
    if difficulty.None? {
      return Fail(500, CreateFailed);
    }
    var recipe := NewRecipe(recipeId, f, difficulty.value, user.value);
    var ok := db.InsertRecipe(recipe);
    if !ok {
      return Fail(500, CreateFailed);
    }
    if |f.ingredients| > 0 {
      ok := db.InsertRecipeIngredients(JoinRows(recipe.id, f.ingredients, rowIds));
      if !ok {
        return Fail(500, CreateFailed);
      }
    }
    return Ok(Created(recipe));
  }

  /** Without a user, `create` answers 401 and touches no table. */
  lemma CreateNeedsUser(t: Tables, f: RecipeForm, recipeId: Id, rowIds: seq<Id>)
    requires |rowIds| == |f.ingredients|
    ensures CreateOutcome(t, None, f, recipeId, rowIds) == (Error(401, "Unauthorized"), t)
  {
  }

  /** A falsy required field, including a number that parses to 0 or NaN,
      gives "Missing required fields" and inserts nothing. */
  lemma CreateRejectsMissingFields(t: Tables, user: Id, f: RecipeForm, recipeId: Id, rowIds: seq<Id>)
    requires |rowIds| == |f.ingredients|
    requires !Present(f.name) || !Present(f.instructions) || !Present(f.difficulty)
          || f.servings in {NaN, Int(0)} || f.prepTime in {NaN, Int(0)} || f.cookTime in {NaN, Int(0)}
    ensures CreateOutcome(t, Some(user), f, recipeId, rowIds) == (Fail(400, MissingFields), t)
  {
  }

  /** A successful `create` adds exactly one recipe, authored by the signed-in
      user and carrying the form's fields, and one join row per submitted
      ingredient, in submission order, each pointing at the new recipe; no other
      table changes. An empty ingredient array adds no join row. */
  lemma CreateSuccess(t: Tables, user: Option<Id>, f: RecipeForm, recipeId: Id, rowIds: seq<Id>)
    requires |rowIds| == |f.ingredients|
    requires CreateOutcome(t, user, f, recipeId, rowIds).0.Ok?
    ensures var (r, t') := CreateOutcome(t, user, f, recipeId, rowIds);
      var recipe := r.data.recipe;
      && user.Some?
      && recipe.id == recipeId && recipe.createdBy == user.value
      && Some(recipe.name) == f.name && recipe.instructions == f.instructions
      && recipe.description == f.description && recipe.images.None?
      && Int(recipe.servings) == f.servings && Int(recipe.prepTime) == f.prepTime
      && Int(recipe.cookTime) == f.cookTime
      && Some(DifficultyLabel(recipe.difficulty)) == f.difficulty
      && t'.recipes == t.recipes + [recipe]
      && |t'.recipeIngredients| == |t.recipeIngredients| + |f.ingredients|
      && t'.recipeIngredients[..|t.recipeIngredients|] == t.recipeIngredients
      && (forall k :: 0 <= k < |f.ingredients| ==>
            var row := t'.recipeIngredients[|t.recipeIngredients| + k];
            && row.recipeId == recipe.id && row.ingredientId == f.ingredients[k].id
            && row.amount == f.ingredients[k].amount && row.unit == f.ingredients[k].unit)
      && t'.users == t.users && t'.sessions == t.sessions && t'.ingredients == t.ingredients
      && t'.savedRecipes == t.savedRecipes && t'.fridgeItems == t.fridgeItems
  {
  }

  /** When the store refuses the recipe row itself (a difficulty outside the
      enum, a clashing id, an unknown author, an integer out of range), the
      answer is "Failed to create recipe" and nothing has changed. */
  lemma CreateRefusedRecipeChangesNothing(t: Tables, user: Id, f: RecipeForm, recipeId: Id, rowIds: seq<Id>)
    requires |rowIds| == |f.ingredients|
    requires HasRequiredFields(f)
    requires || ParseDifficulty(f.difficulty.value).None?
             || !RecipeInsertable(t, NewRecipe(recipeId, f, ParseDifficulty(f.difficulty.value).value, user))
    ensures CreateOutcome(t, Some(user), f, recipeId, rowIds) == (Fail(500, CreateFailed), t)
  {
  }

  /** `create` is not atomic: whenever the store refuses the join rows
      (an unknown ingredient id, a clashing or repeated generated id), the
      answer is "Failed to create recipe" yet the recipe row stays. */
  lemma CreateIsNotAtomic(t: Tables, user: Id, f: RecipeForm, recipeId: Id, rowIds: seq<Id>)
    requires |rowIds| == |f.ingredients|
    requires HasRequiredFields(f)
    requires ParseDifficulty(f.difficulty.value).Some?
    requires RecipeInsertable(t, NewRecipe(recipeId, f, ParseDifficulty(f.difficulty.value).value, user))
    requires |f.ingredients| > 0
    requires !RecipeIngredientsInsertable(
               AddRecipe(t, NewRecipe(recipeId, f, ParseDifficulty(f.difficulty.value).value, user)),
               JoinRows(recipeId, f.ingredients, rowIds))
    ensures CreateOutcome(t, Some(user), f, recipeId, rowIds)
         == (Fail(500, CreateFailed), AddRecipe(t, NewRecipe(recipeId, f, ParseDifficulty(f.difficulty.value).value, user)))
  {
  }

  /** One case of the above: a submitted ingredient id that names no
      ingredient leaves a recipe behind. */
  lemma CreateWithUnknownIngredientLeavesRecipe(t: Tables, user: Id, f: RecipeForm, recipeId: Id, rowIds: seq<Id>, k: nat)
    requires |rowIds| == |f.ingredients|
    requires HasRequiredFields(f)
    requires ParseDifficulty(f.difficulty.value).Some?
    requires RecipeInsertable(t, NewRecipe(recipeId, f, ParseDifficulty(f.difficulty.value).value, user))
    requires k < |f.ingredients| && f.ingredients[k].id !in IngredientIds(t)
    ensures CreateOutcome(t, Some(user), f, recipeId, rowIds)
         == (Fail(500, CreateFailed), AddRecipe(t, NewRecipe(recipeId, f, ParseDifficulty(f.difficulty.value).value, user)))
  {
    var recipe := NewRecipe(recipeId, f, ParseDifficulty(f.difficulty.value).value, user);
    var rows := JoinRows(recipeId, f.ingredients, rowIds);
    assert rows[k] in rows;
    assert IngredientIds(AddRecipe(t, recipe)) == IngredientIds(t);
    CreateIsNotAtomic(t, user, f, recipeId, rowIds);
  }

  /** `create` keeps the store well formed, whichever way it ends. */
  lemma CreateKeepsWellFormed(t: Tables, user: Option<Id>, f: RecipeForm, recipeId: Id, rowIds: seq<Id>)
    requires |rowIds| == |f.ingredients|
    requires WellFormed(t)
    ensures WellFormed(CreateOutcome(t, user, f, recipeId, rowIds).1)
  {
    if user.Some? && HasRequiredFields(f) && ParseDifficulty(f.difficulty.value).Some? {
      var recipe := NewRecipe(recipeId, f, ParseDifficulty(f.difficulty.value).value, user.value);
      if RecipeInsertable(t, recipe) {
        AddRecipeKeepsWellFormed(t, recipe);
        var rows := JoinRows(recipeId, f.ingredients, rowIds);
        if |f.ingredients| > 0 && RecipeIngredientsInsertable(AddRecipe(t, recipe), rows) {
          AddRecipeIngredientsKeepsWellFormed(AddRecipe(t, recipe), rows);
        }
      }
    }
  }

  // ---- delete ----

  datatype Deleted = Deleted

  const MissingRecipeId := "Missing recipe ID"
  const DeleteFailed := "Failed to delete recipe"

  /** The response of `delete` and the store afterwards: the recipe's join
      rows are deleted first, then the recipe row. Which user asks is never
      compared with the recipe's author. */
  function DeleteOutcome(t: Tables, user: Option<Id>, recipeId: Option<string>): (r: (Response<Deleted>, Tables))
    // only the recipe and join tables can change, and neither ever grows
    ensures r.1 == t.(recipes := r.1.recipes, recipeIngredients := r.1.recipeIngredients)
    ensures |r.1.recipes| <= |t.recipes| && |r.1.recipeIngredients| <= |t.recipeIngredients|
  {
    if user.None? then (Error(401, "Unauthorized"), t)
    else if !Present(recipeId) then (Fail(400, MissingRecipeId), t)
    else
      var t1 := DeleteRecipeIngredientsOf(t, recipeId.value);
      if RecipeDeletable(t1, recipeId.value) then (Ok(Deleted), DeleteRecipeRow(t1, recipeId.value))
      // the join rows stay deleted
      else (Fail(500, DeleteFailed), t1)
  }

  /** `actions.delete`. */
  method Delete(db: Db, user: Option<Id>, recipeId: Option<string>) returns (r: Response<Deleted>)
    modifies db
    ensures (r, db.Snapshot()) == DeleteOutcome(old(db.Snapshot()), user, recipeId)
    ensures WellFormed(old(db.Snapshot())) ==> WellFormed(db.Snapshot())
  {
    if user.None? {
      return Error(401, "Unauthorized");
    }
    if !Present(recipeId) {
      return Fail(400, MissingRecipeId);
    }
    db.DeleteRecipeIngredients(recipeId.value);
    var ok := db.DeleteRecipe(recipeId.value);
    if !ok {
      return Fail(500, DeleteFailed);
    }
    return Ok(Deleted);
  }

  /** Without a user `delete` answers 401; with an empty or absent id it
      answers "Missing recipe ID"; neither touches a table. */
  lemma DeleteRejects(t: Tables, user: Option<Id>, recipeId: Option<string>)
    requires user.None? || !Present(recipeId)
    ensures DeleteOutcome(t, user, recipeId).1 == t
    ensures DeleteOutcome(t, user, recipeId).0
         == if user.None? then Error(401, "Unauthorized") else Fail(400, MissingRecipeId)
  {
  }

  /** A successful `delete` removes exactly the recipe's join rows and the
      recipe row, keeps the order of what remains, and changes no other table. */
  lemma DeleteSuccess(t: Tables, user: Option<Id>, recipeId: Option<string>)
    requires DeleteOutcome(t, user, recipeId).0.Ok?
    ensures var t' := DeleteOutcome(t, user, recipeId).1;
      var id := recipeId.value;
      && Present(recipeId)
      && (forall ri :: ri in t'.recipeIngredients <==> ri in t.recipeIngredients && ri.recipeId != id)
      && (forall r :: r in t'.recipes <==> r in t.recipes && r.id != id)
      && t'.recipeIngredients == Filter(OfOtherRecipe(id), t.recipeIngredients)
      && t'.recipes == Filter(OtherThan(id), t.recipes)
      && t'.users == t.users && t'.sessions == t.sessions && t'.ingredients == t.ingredients
      && t'.savedRecipes == t.savedRecipes && t'.fridgeItems == t.fridgeItems
  {
  }

  /** Deleting an id no recipe has succeeds and changes nothing. */
  lemma DeleteUnknownIsNoop(t: Tables, user: Id, id: Id)
    requires WellFormed(t)
    requires id != "" && id !in RecipeIds(t)
    ensures DeleteOutcome(t, Some(user), Some(id)) == (Ok(Deleted), t)
  {
    forall ri | ri in t.recipeIngredients ensures OfOtherRecipe(id)(ri) {
      assert ri.recipeId in RecipeIds(t);
    }
    FilterKeepsAll(OfOtherRecipe(id), t.recipeIngredients);
    forall r | r in t.recipes ensures OtherThan(id)(r) {
      assert r.id in RecipeIds(t);
    }
    FilterKeepsAll(OtherThan(id), t.recipes);
  }

  /** There is no ownership check: any signed-in user deletes any recipe
      that no saved-recipe row references, whoever created it. */
  lemma DeleteIgnoresOwnership(t: Tables, user: Id, r: RecipeRow)
    requires r in t.recipes && r.createdBy != user && r.id != ""
    requires forall sr :: sr in t.savedRecipes ==> sr.recipeId != r.id
    ensures DeleteOutcome(t, Some(user), Some(r.id)).0 == Ok(Deleted)
    ensures r !in DeleteOutcome(t, Some(user), Some(r.id)).1.recipes
  {
    var t1 := DeleteRecipeIngredientsOf(t, r.id);
    assert forall ri :: ri in t1.recipeIngredients ==> ri.recipeId != r.id;
    assert RecipeDeletable(t1, r.id);
  }

  /** Which signed-in user asks never matters to `delete`: the answer and the
      store afterwards are the same for every user. */
  lemma DeleteIndependentOfUser(t: Tables, u1: Id, u2: Id, recipeId: Option<string>)
    ensures DeleteOutcome(t, Some(u1), recipeId) == DeleteOutcome(t, Some(u2), recipeId)
  {
  }

  /** No cascade is declared: while a saved-recipe row references the recipe,
      the recipe delete is refused, the answer is "Failed to delete recipe",
      and the recipe's join rows are already gone. */
  lemma DeleteBlockedBySavedRecipe(t: Tables, user: Id, id: Id, sr: SavedRecipeRow)
    requires id != "" && id in RecipeIds(t)
    requires sr in t.savedRecipes && sr.recipeId == id
    ensures DeleteOutcome(t, Some(user), Some(id)) == (Fail(500, DeleteFailed), DeleteRecipeIngredientsOf(t, id))
    ensures forall ri :: ri in DeleteOutcome(t, Some(user), Some(id)).1.recipeIngredients ==> ri.recipeId != id
    ensures DeleteOutcome(t, Some(user), Some(id)).1.recipes == t.recipes
  {
  }

  /** `delete` keeps the store well formed, whichever way it ends. */
  lemma DeleteKeepsWellFormed(t: Tables, user: Option<Id>, recipeId: Option<string>)
    requires WellFormed(t)
    ensures WellFormed(DeleteOutcome(t, user, recipeId).1)
  {
    if user.Some? && Present(recipeId) {
      var t1 := DeleteRecipeIngredientsOf(t, recipeId.value);
      DeleteRecipeIngredientsKeepsWellFormed(t, recipeId.value);
      if RecipeDeletable(t1, recipeId.value) {
        DeleteRecipeKeepsWellFormed(t1, recipeId.value);
      }
    }
  }
}
