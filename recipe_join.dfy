/** The in-memory inner join both recipe loaders perform: every recipe row is
    spread into a new object with an `ingredients` list, built by filtering
    the `recipe_ingredient` rows by recipe id, resolving each to the first
    ingredient with a matching id, and dropping the rows that do not resolve. */
module RecipeJoin {
  import opened Seqs
  import opened Schema

  /** One element of a recipe's `ingredients` list: `{id, name, amount, unit}`. */
  datatype IngredientEntry = IngredientEntry(id: Id, name: string, amount: Option<string>, unit: Option<string>)

  /** `{...recipe, ingredients}`: every column of the recipe row, plus the list. */
  datatype RecipeView = RecipeView(recipe: RecipeRow, ingredients: seq<IngredientEntry>)

  /** The `filter` callback: `ri.recipeId === recipe.id`. */
  function OfRecipe(recipeId: Id): RecipeIngredientRow -> bool {
    (ri: RecipeIngredientRow) => ri.recipeId == recipeId
  }

  /** The `find` callback: `i.id === ri.ingredientId`. */
  function HasId(id: Id): IngredientRow -> bool {
    (i: IngredientRow) => i.id == id
  }

  function Entry(i: IngredientRow, ri: RecipeIngredientRow): IngredientEntry {
    IngredientEntry(i.id, i.name, ri.amount, ri.unit)
  }

  /** The `map` callback: the entry for the first ingredient whose id is the
      row's ingredient id, or null when there is none. */
  function ResolveRow(ingredients: seq<IngredientRow>, ri: RecipeIngredientRow): (r: Option<IngredientEntry>)
    ensures r.None? <==> forall i :: i in ingredients ==> i.id != ri.ingredientId
    ensures r.Some? ==>
      exists k :: IsFirst(HasId(ri.ingredientId), ingredients, k) && r.value == Entry(ingredients[k], ri)
  {
    match Find(HasId(ri.ingredientId), ingredients)
    case None => None
    case Some(i) => Some(Entry(i, ri))
  }

  function Resolver(ingredients: seq<IngredientRow>): RecipeIngredientRow -> Option<IngredientEntry> {
    (ri: RecipeIngredientRow) => ResolveRow(ingredients, ri)
  }

  /** One recipe's `ingredients`: `.filter(...).map(...).filter(Boolean)`.
      Every entry carries the id and name of an existing ingredient, and there
      are never more entries than join rows. */
  function IngredientsOf(recipeId: Id, ingredients: seq<IngredientRow>, joinRows: seq<RecipeIngredientRow>)
    : (r: seq<IngredientEntry>)
    ensures forall e :: e in r ==> exists i :: i in ingredients && i.id == e.id && i.name == e.name
    ensures |r| <= |joinRows|
  {
    var rows := Filter(OfRecipe(recipeId), joinRows);
    ResolvedEntriesNameIngredients(ingredients, rows);
    Somes(Map(Resolver(ingredients), rows))
  }

  lemma ResolvedEntriesNameIngredients(ingredients: seq<IngredientRow>, rows: seq<RecipeIngredientRow>)
    ensures forall e :: e in Somes(Map(Resolver(ingredients), rows)) ==>
      exists i :: i in ingredients && i.id == e.id && i.name == e.name
  {
    var mapped := Map(Resolver(ingredients), rows);
    forall e: IngredientEntry | e in Somes(mapped) ensures exists i :: i in ingredients && i.id == e.id && i.name == e.name {
      assert Some(e) in mapped;
      var k :| 0 <= k < |mapped| && mapped[k] == Some(e);
      assert ResolveRow(ingredients, rows[k]) == Some(e);
      var j :| IsFirst(HasId(rows[k].ingredientId), ingredients, j) && e == Entry(ingredients[j], rows[k]);
      assert ingredients[j] in ingredients;
    }
  }

  function ViewOf(ingredients: seq<IngredientRow>, joinRows: seq<RecipeIngredientRow>): RecipeRow -> RecipeView {
    (r: RecipeRow) => RecipeView(r, IngredientsOf(r.id, ingredients, joinRows))
  }

  /** `recipes.map(recipe => ({...recipe, ingredients: …}))`: one view per
      recipe row, in table order, each keeping the row and carrying the list
      built for that row's id. */
  function AssembleRecipes(recipes: seq<RecipeRow>, ingredients: seq<IngredientRow>,
                           joinRows: seq<RecipeIngredientRow>): (r: seq<RecipeView>)
    ensures |r| == |recipes|
    ensures forall k :: 0 <= k < |recipes| ==>
      r[k].recipe == recipes[k] && r[k].ingredients == IngredientsOf(recipes[k].id, ingredients, joinRows)
  {
    Map(ViewOf(ingredients, joinRows), recipes)
  }

  /** What a single join row contributes to a recipe's list: its entry when it
      belongs to the recipe and resolves, and nothing otherwise. */
  function Contribution(recipeId: Id, ingredients: seq<IngredientRow>, ri: RecipeIngredientRow): seq<IngredientEntry> {
    if ri.recipeId == recipeId && ResolveRow(ingredients, ri).Some? then [ResolveRow(ingredients, ri).value] else []
  }

  /** The list is built in join-table order: splitting the join table splits
      the list at the same place. */
  lemma IngredientsOfConcat(recipeId: Id, ingredients: seq<IngredientRow>,
                            a: seq<RecipeIngredientRow>, b: seq<RecipeIngredientRow>)
    ensures IngredientsOf(recipeId, ingredients, a + b)
         == IngredientsOf(recipeId, ingredients, a) + IngredientsOf(recipeId, ingredients, b)
  {
    var p, f := OfRecipe(recipeId), Resolver(ingredients);
    FilterConcat(p, a, b);
    MapConcat(f, Filter(p, a), Filter(p, b));
    SomesConcat(Map(f, Filter(p, a)), Map(f, Filter(p, b)));
  }

  /** A single join row gives exactly its contribution. */
  lemma IngredientsOfOne(recipeId: Id, ingredients: seq<IngredientRow>, ri: RecipeIngredientRow)
    ensures IngredientsOf(recipeId, ingredients, [ri]) == Contribution(recipeId, ingredients, ri)
  {
    assert [ri][1..] == [];
    var filtered := Filter(OfRecipe(recipeId), [ri]);
    if ri.recipeId == recipeId {
      assert filtered == [ri];
      var mapped := Map(Resolver(ingredients), filtered);
      assert mapped == [ResolveRow(ingredients, ri)];
      assert mapped[1..] == [];
    } else {
      assert filtered == [];
    }
  }

  /** Appending a join row appends its contribution: the list follows
      join-table order, takes only the recipe's rows, and silently drops a row
      whose ingredient id matches no ingredient. */
  lemma {:induction false} IngredientsOfAppend(recipeId: Id, ingredients: seq<IngredientRow>,
                                               rows: seq<RecipeIngredientRow>, ri: RecipeIngredientRow)
    ensures IngredientsOf(recipeId, ingredients, rows + [ri])
         == IngredientsOf(recipeId, ingredients, rows) + Contribution(recipeId, ingredients, ri)
  {
    IngredientsOfConcat(recipeId, ingredients, rows, [ri]);
    IngredientsOfOne(recipeId, ingredients, ri);
  }

  /** Removing a row that does not resolve leaves the list unchanged. */
  lemma UnresolvedRowIsDropped(recipeId: Id, ingredients: seq<IngredientRow>,
                               a: seq<RecipeIngredientRow>, ri: RecipeIngredientRow, b: seq<RecipeIngredientRow>)
    requires forall i :: i in ingredients ==> i.id != ri.ingredientId
    ensures IngredientsOf(recipeId, ingredients, a + [ri] + b) == IngredientsOf(recipeId, ingredients, a + b)
  {
    IngredientsOfConcat(recipeId, ingredients, a + [ri], b);
    IngredientsOfAppend(recipeId, ingredients, a, ri);
    IngredientsOfConcat(recipeId, ingredients, a, b);
  }

  /** Provenance, both ways: an entry is in the list exactly when some join row
      of this recipe resolves to it. */
  lemma IngredientsOfMembers(recipeId: Id, ingredients: seq<IngredientRow>,
                             rows: seq<RecipeIngredientRow>, e: IngredientEntry)
    ensures e in IngredientsOf(recipeId, ingredients, rows) <==>
      exists ri :: ri in rows && ri.recipeId == recipeId && ResolveRow(ingredients, ri) == Some(e)
  {
    if e in IngredientsOf(recipeId, ingredients, rows) {
      MemberComesFromRow(recipeId, ingredients, rows, e);
    }
    if exists ri :: ri in rows && ri.recipeId == recipeId && ResolveRow(ingredients, ri) == Some(e) {
      var ri :| ri in rows && ri.recipeId == recipeId && ResolveRow(ingredients, ri) == Some(e);
      RowGivesMember(recipeId, ingredients, rows, ri);
    }
  }

  lemma MemberComesFromRow(recipeId: Id, ingredients: seq<IngredientRow>,
                           rows: seq<RecipeIngredientRow>, e: IngredientEntry)
    requires e in IngredientsOf(recipeId, ingredients, rows)
    ensures exists ri :: ri in rows && ri.recipeId == recipeId && ResolveRow(ingredients, ri) == Some(e)
  {
    var filtered := Filter(OfRecipe(recipeId), rows);
    var mapped := Map(Resolver(ingredients), filtered);
    assert Some(e) in mapped;
    var k :| 0 <= k < |mapped| && mapped[k] == Some(e);
    var ri := filtered[k];
    assert ri in filtered;
    assert ResolveRow(ingredients, ri) == Some(e);
  }

  lemma RowGivesMember(recipeId: Id, ingredients: seq<IngredientRow>,
                       rows: seq<RecipeIngredientRow>, ri: RecipeIngredientRow)
    requires ri in rows && ri.recipeId == recipeId && ResolveRow(ingredients, ri).Some?
    ensures ResolveRow(ingredients, ri).value in IngredientsOf(recipeId, ingredients, rows)
  {
    var filtered := Filter(OfRecipe(recipeId), rows);
    var mapped := Map(Resolver(ingredients), filtered);
    assert OfRecipe(recipeId)(ri);
    assert ri in filtered;
    var k :| 0 <= k < |filtered| && filtered[k] == ri;
    assert mapped[k] == ResolveRow(ingredients, ri);
    assert ResolveRow(ingredients, ri) in mapped;
  }

  /** A recipe never has more entries than join rows naming it; when every one
      of those rows names an existing ingredient, none is dropped. */
  lemma IngredientsOfLength(recipeId: Id, ingredients: seq<IngredientRow>, rows: seq<RecipeIngredientRow>)
    ensures |IngredientsOf(recipeId, ingredients, rows)| <= |Filter(OfRecipe(recipeId), rows)|
    ensures (forall ri :: ri in rows && ri.recipeId == recipeId ==>
               exists i :: i in ingredients && i.id == ri.ingredientId)
        ==> |IngredientsOf(recipeId, ingredients, rows)| == |Filter(OfRecipe(recipeId), rows)|
  {
    var filtered := Filter(OfRecipe(recipeId), rows);
    var mapped := Map(Resolver(ingredients), filtered);
    if forall ri :: ri in rows && ri.recipeId == recipeId ==> exists i :: i in ingredients && i.id == ri.ingredientId {
      forall k | 0 <= k < |mapped| ensures mapped[k].Some? {
        assert filtered[k] in filtered;
      }
      SomesKeepsAll(mapped);
    }
  }

  /** In a well-formed store every join row names an existing ingredient, so
      the loaders drop nothing: each recipe gets one entry per join row. */
  lemma NothingDroppedWhenWellFormed(t: Tables, recipeId: Id)
    requires WellFormed(t)
    ensures |IngredientsOf(recipeId, t.ingredients, t.recipeIngredients)|
         == |Filter(OfRecipe(recipeId), t.recipeIngredients)|
  {
    forall ri | ri in t.recipeIngredients && ri.recipeId == recipeId
      ensures exists i :: i in t.ingredients && i.id == ri.ingredientId
    {
      assert ri.ingredientId in IngredientIds(t);
    }
    IngredientsOfLength(recipeId, t.ingredients, t.recipeIngredients);
  }
}
