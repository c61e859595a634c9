/** The home page (`/app`): its loader lists every recipe with its
    ingredients, and sends a visitor without a session to the sign-in page. */
module AppPage {
  import opened Seqs
  import opened Kit
  import opened Schema
  import opened RecipeJoin
  import RecipesPage

  datatype PageData = PageData(recipes: seq<RecipeView>)

  /** `load`: a redirect to `/auth` without a user, whatever the store holds;
      otherwise one view per recipe row, in table order, each keeping the row
      and carrying the list the join builds for it. */
  function Load(user: Option<Id>, t: Tables): (r: Response<PageData>)
    ensures user.None? ==> r == Redirect(302, "/auth")
    ensures user.Some? ==>
      && r.Ok?
      && |r.data.recipes| == |t.recipes|
      && forall k :: 0 <= k < |t.recipes| ==>
           && r.data.recipes[k].recipe == t.recipes[k]
           && r.data.recipes[k].ingredients == IngredientsOf(t.recipes[k].id, t.ingredients, t.recipeIngredients)
  {
    if user.None? then Redirect(302, "/auth")
    else Ok(PageData(AssembleRecipes(t.recipes, t.ingredients, t.recipeIngredients)))
  }

  /** Both loaders show a signed-in user the same recipe list. */
  lemma LoadAgreesWithRecipesPage(user: Id, t: Tables)
    ensures Load(Some(user), t).data.recipes == RecipesPage.Load(Some(user), t).data.recipes
  {
    var mine, theirs := Load(Some(user), t).data.recipes, RecipesPage.Load(Some(user), t).data.recipes;
    assert |mine| == |theirs|;
    forall k | 0 <= k < |mine| ensures mine[k] == theirs[k] {
    }
  }
}
