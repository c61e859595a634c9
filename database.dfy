/** The relational store the handlers talk to, as in-memory tables.

    Each statement the handlers issue is one operation here. The store refuses
    a statement that would break a constraint the schema declares (a primary
    key or email clash, a dangling foreign key, an integer out of the column's
    range) and then changes nothing: in the handlers that refusal is the
    exception their `catch` turns into a failure. Every operation keeps the
    store well formed. */
module Database {
  import opened Seqs
  import opened Schema

  // ---- What each statement is allowed to do ----

  /** `insert into user`: the generated id and the email must both be new. */
  predicate UserInsertable(t: Tables, u: UserRow) {
    u.id !in UserIds(t) && u.email !in Keys(UserEmail, t.users)
  }

  /** `insert into session` (done by the session helper): a new id, an existing user. */
  predicate SessionInsertable(t: Tables, s: SessionRow) {
    s.id !in Keys(SessionKey, t.sessions) && s.userId in UserIds(t)
  }

  /** `insert into recipe`: a new id, an existing author, 32-bit integers. */
  predicate RecipeInsertable(t: Tables, r: RecipeRow) {
    r.id !in RecipeIds(t) && r.createdBy in UserIds(t) && FitsColumns(r)
  }

  /** One multi-row `insert into recipe_ingredient`: all rows or none. Ids are
      new and pairwise distinct; every row names an existing recipe and an
      existing ingredient. */
  predicate RecipeIngredientsInsertable(t: Tables, rows: seq<RecipeIngredientRow>) {
    && KeysUnique(RecipeIngredientKey, rows)
    && Keys(RecipeIngredientKey, rows) !! Keys(RecipeIngredientKey, t.recipeIngredients)
    && forall ri :: ri in rows ==> ri.recipeId in RecipeIds(t) && ri.ingredientId in IngredientIds(t)
  }

  /** `delete from recipe where id = ?`: no cascade is declared, so the store
      refuses it while a row of `saved_recipe` or `recipe_ingredient` still
      references the recipe being removed. */
  predicate RecipeDeletable(t: Tables, id: Id) {
    id in RecipeIds(t) ==>
      && (forall sr :: sr in t.savedRecipes ==> sr.recipeId != id)
      && (forall ri :: ri in t.recipeIngredients ==> ri.recipeId != id)
  }

  // ---- The statements themselves ----

  function HasEmail(email: string): UserRow -> bool { (u: UserRow) => u.email == email }
  function OfOtherRecipe(id: Id): RecipeIngredientRow -> bool { (ri: RecipeIngredientRow) => ri.recipeId != id }
  function OtherThan(id: Id): RecipeRow -> bool { (r: RecipeRow) => r.id != id }

  /** `select * from user where email = ?`, in table order: exactly the users
      with that email and, under the unique email, at most one of them. */
  function SelectUsersByEmail(t: Tables, email: string): (r: seq<UserRow>)
    ensures forall u :: u in r <==> u in t.users && u.email == email
    ensures EmailsUnique(t) ==> |r| <= 1
  {
    assert EmailsUnique(t) ==> |Filter(HasEmail(email), t.users)| <= 1 by {
      if EmailsUnique(t) {
        AtMostOneWithEmail(t.users, email);
      }
    }
    Filter(HasEmail(email), t.users)
  }

  lemma {:induction false} AtMostOneWithEmail(users: seq<UserRow>, email: string)
    requires KeysUnique(UserEmail, users)
    ensures |Filter(HasEmail(email), users)| <= 1
    decreases |users|
  {
    if users != [] {
      var rest := users[1..];
      if users[0].email == email {
        forall u | u in rest ensures !HasEmail(email)(u) {
          assert UserEmail(u) in Keys(UserEmail, rest);
        }
        FilterKeepsNone(HasEmail(email), rest);
      } else {
        AtMostOneWithEmail(rest, email);
      }
    }
  }

  function AddUser(t: Tables, u: UserRow): Tables { t.(users := t.users + [u]) }
  function AddSession(t: Tables, s: SessionRow): Tables { t.(sessions := t.sessions + [s]) }
  function AddRecipe(t: Tables, r: RecipeRow): Tables { t.(recipes := t.recipes + [r]) }
  function AddRecipeIngredients(t: Tables, rows: seq<RecipeIngredientRow>): Tables {
    t.(recipeIngredients := t.recipeIngredients + rows)
  }

  /** `delete from recipe_ingredient where recipe_id = ?`. */
  function DeleteRecipeIngredientsOf(t: Tables, id: Id): Tables {
    t.(recipeIngredients := Filter(OfOtherRecipe(id), t.recipeIngredients))
  }

  /** `delete from recipe where id = ?`. */
  function DeleteRecipeRow(t: Tables, id: Id): Tables {
    t.(recipes := Filter(OtherThan(id), t.recipes))
  }

  // ---- Every admitted statement keeps the store well formed ----

  lemma AddUserKeepsWellFormed(t: Tables, u: UserRow)
    requires WellFormed(t) && UserInsertable(t, u)
    ensures WellFormed(AddUser(t, u))
  {
    var t' := AddUser(t, u);
    UniqueAppendOne(UserKey, t.users, u);
    UniqueAppendOne(UserEmail, t.users, u);
    assert PrimaryKeysUnique(t') && EmailsUnique(t');
    assert UserIds(t) <= UserIds(t');
    assert ForeignKeysHold(t');
  }

  lemma AddSessionKeepsWellFormed(t: Tables, s: SessionRow)
    requires WellFormed(t) && SessionInsertable(t, s)
    ensures WellFormed(AddSession(t, s))
  {
    UniqueAppendOne(SessionKey, t.sessions, s);
  }

  lemma AddRecipeKeepsWellFormed(t: Tables, r: RecipeRow)
    requires WellFormed(t) && RecipeInsertable(t, r)
    ensures WellFormed(AddRecipe(t, r))
  {
    UniqueAppendOne(RecipeKey, t.recipes, r);
  }

  lemma AddRecipeIngredientsKeepsWellFormed(t: Tables, rows: seq<RecipeIngredientRow>)
    requires WellFormed(t) && RecipeIngredientsInsertable(t, rows)
    ensures WellFormed(AddRecipeIngredients(t, rows))
  {
    UniqueConcat(RecipeIngredientKey, t.recipeIngredients, rows);
  }

  lemma DeleteRecipeIngredientsKeepsWellFormed(t: Tables, id: Id)
    requires WellFormed(t)
    ensures WellFormed(DeleteRecipeIngredientsOf(t, id))
  {
    UniqueFilter(RecipeIngredientKey, OfOtherRecipe(id), t.recipeIngredients);
  }

  lemma DeleteRecipeKeepsWellFormed(t: Tables, id: Id)
    requires WellFormed(t) && RecipeDeletable(t, id)
    ensures WellFormed(DeleteRecipeRow(t, id))
  {
    var t' := DeleteRecipeRow(t, id);
    UniqueFilter(RecipeKey, OtherThan(id), t.recipes);
    assert PrimaryKeysUnique(t') && EmailsUnique(t');
    forall x | x in RecipeIds(t) && x != id ensures x in RecipeIds(t') {
      var r :| r in t.recipes && r.id == x;
      assert r in t'.recipes;
    }
    assert ForeignKeysHold(t');
    assert forall r :: r in t'.recipes ==> FitsColumns(r);
  }

  /** The store's contents, one sequence field per table. */
  class Db {
    var users: seq<UserRow>
    var sessions: seq<SessionRow>
    var recipes: seq<RecipeRow>
    var ingredients: seq<IngredientRow>
    var recipeIngredients: seq<RecipeIngredientRow>
    var savedRecipes: seq<SavedRecipeRow>
    var fridgeItems: seq<FridgeItemRow>

    function Snapshot(): Tables
      reads this
    {
      Tables(users, sessions, recipes, ingredients, recipeIngredients, savedRecipes, fridgeItems)
    }

    constructor (t: Tables)
      ensures Snapshot() == t
    {
      users, sessions, recipes := t.users, t.sessions, t.recipes;
      ingredients, recipeIngredients := t.ingredients, t.recipeIngredients;
      savedRecipes, fridgeItems := t.savedRecipes, t.fridgeItems;
    }

    method InsertUser(u: UserRow) returns (ok: bool)
      modifies this
      ensures ok == UserInsertable(old(Snapshot()), u)
      ensures Snapshot() == if ok then AddUser(old(Snapshot()), u) else old(Snapshot())
      ensures WellFormed(old(Snapshot())) ==> WellFormed(Snapshot())
    {
      ghost var t := Snapshot();
      ok := UserInsertable(Snapshot(), u);
      if ok {
        users := users + [u];
        if WellFormed(t) { AddUserKeepsWellFormed(t, u); }
      }
    }

    method InsertSession(s: SessionRow) returns (ok: bool)
      modifies this
      ensures ok == SessionInsertable(old(Snapshot()), s)
      ensures Snapshot() == if ok then AddSession(old(Snapshot()), s) else old(Snapshot())
      ensures WellFormed(old(Snapshot())) ==> WellFormed(Snapshot())
    {
      ghost var t := Snapshot();
      ok := SessionInsertable(Snapshot(), s);
      if ok {
        sessions := sessions + [s];
        if WellFormed(t) { AddSessionKeepsWellFormed(t, s); }
      }
    }

    method InsertRecipe(r: RecipeRow) returns (ok: bool)
      modifies this
      ensures ok == RecipeInsertable(old(Snapshot()), r)
      ensures Snapshot() == if ok then AddRecipe(old(Snapshot()), r) else old(Snapshot())
      ensures WellFormed(old(Snapshot())) ==> WellFormed(Snapshot())
    {
      ghost var t := Snapshot();
      ok := RecipeInsertable(Snapshot(), r);
      if ok {
        recipes := recipes + [r];
        if WellFormed(t) { AddRecipeKeepsWellFormed(t, r); }
      }
    }

    method InsertRecipeIngredients(rows: seq<RecipeIngredientRow>) returns (ok: bool)
      modifies this
      ensures ok == RecipeIngredientsInsertable(old(Snapshot()), rows)
      ensures Snapshot() == if ok then AddRecipeIngredients(old(Snapshot()), rows) else old(Snapshot())
      ensures WellFormed(old(Snapshot())) ==> WellFormed(Snapshot())
    {
      ghost var t := Snapshot();
      ok := RecipeIngredientsInsertable(Snapshot(), rows);
      if ok {
        recipeIngredients := recipeIngredients + rows;
        if WellFormed(t) { AddRecipeIngredientsKeepsWellFormed(t, rows); }
      }
    }

    /** Nothing references `recipe_ingredient`, so this delete is never refused. */
    method DeleteRecipeIngredients(id: Id)
      modifies this
      ensures Snapshot() == DeleteRecipeIngredientsOf(old(Snapshot()), id)
      ensures WellFormed(old(Snapshot())) ==> WellFormed(Snapshot())
    {
      ghost var t := Snapshot();
      recipeIngredients := Filter(OfOtherRecipe(id), recipeIngredients);
      if WellFormed(t) { DeleteRecipeIngredientsKeepsWellFormed(t, id); }
    }

    method DeleteRecipe(id: Id) returns (ok: bool)
      modifies this
      ensures ok == RecipeDeletable(old(Snapshot()), id)
      ensures Snapshot() == if ok then DeleteRecipeRow(old(Snapshot()), id) else old(Snapshot())
      ensures WellFormed(old(Snapshot())) ==> WellFormed(Snapshot())
    {
      ghost var t := Snapshot();
      ok := RecipeDeletable(Snapshot(), id);
      if ok {
        recipes := Filter(OtherThan(id), recipes);
        if WellFormed(t) { DeleteRecipeKeepsWellFormed(t, id); }
      }
    }
  }
}
