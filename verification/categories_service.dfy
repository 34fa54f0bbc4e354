/** The category operations of the service layer
    (src/categories/categories.service.ts): creation for an existing account,
    renaming with the name lower-cased, deletion and lookup by the repository's
    rules, and the paged listing behind the search check. */
module CategoriesService {
  import opened Results
  import Text
  import CommonService
  import UserRepository
  import CategoryRepository

  type Category = CategoryRepository.Category
  type User = UserRepository.User

  /** `createCategory`: the caller's account must exist (`NotFound` otherwise);
      the category is then created for it, its name lower-cased. */
  function CreateCategory(users: seq<User>, cats: seq<Category>, id: string, name: string, newId: string): (r: Result<(seq<Category>, Category)>)
    ensures (r.Failure? && r.error == NotFound) <==> forall u :: u in users ==> u.id != id
    ensures (r.Failure? && r.error == Conflict) <==>
              (exists u :: u in users && u.id == id) && CategoryRepository.Clashes(cats, CategoryRepository.Category(newId, Text.Lower(name), id))
    ensures r.Failure? ==> r.error == NotFound || r.error == Conflict
    ensures r.Success? ==>
              && r.value.1 == CategoryRepository.Category(newId, Text.Lower(name), id)
              && r.value.0 == cats + [r.value.1]
  {
    var user :- UserRepository.GetUserById(users, id);
    CategoryRepository.CreateCategory(cats, user.id, name, newId)
  }

  /** `updateCategory`: the new name is lower-cased before the repository stores
      it. */
  function UpdateCategory(cats: seq<Category>, owner: string, search: string, name: string): (r: Result<(seq<Category>, Category)>)
    ensures r.Success? ==>
              && CategoryRepository.LookupIndex(cats, owner, search).Success?
              && var i := CategoryRepository.LookupIndex(cats, owner, search).value;
              && r.value.1 == CategoryRepository.Category(cats[i].id, Text.Lower(name), owner)
              && r.value.0 == cats[i := r.value.1]
    ensures r.Failure? && r.error != Conflict ==>
              CategoryRepository.LookupIndex(cats, owner, search).Failure?
              && r.error == CategoryRepository.LookupIndex(cats, owner, search).error
    ensures r.Failure? && r.error == Conflict ==>
              && CategoryRepository.LookupIndex(cats, owner, search).Success?
              && exists k :: 0 <= k < |cats| && k != CategoryRepository.LookupIndex(cats, owner, search).value
                   && cats[k].owner == owner && cats[k].name == Text.Lower(name)
  {
    CategoryRepository.UpdateCategory(cats, owner, search, Text.Lower(name))
  }

  /** A renamed category reads the same whatever case the new name was typed
      in. */
  lemma UpdateIgnoresCase(cats: seq<Category>, owner: string, search: string, name: string)
    ensures UpdateCategory(cats, owner, search, name) == UpdateCategory(cats, owner, search, Text.Lower(name))
  {
    Text.LowerIdempotent(name);
  }

  /** Renaming keeps names unique per owner. */
  lemma UpdateKeepsUnique(cats: seq<Category>, owner: string, search: string, name: string)
    requires CategoryRepository.Unique(cats)
    requires UpdateCategory(cats, owner, search, name).Success?
    ensures CategoryRepository.Unique(UpdateCategory(cats, owner, search, name).value.0)
  {
    CategoryRepository.UpdateKeepsUnique(cats, owner, search, Text.Lower(name));
  }

  /** `deleteCategory`: the target is resolved by `getCategory` (UUID or name,
      the owner's own) and removed. The source calls `softRemove`, but the
      entity declares no delete-date column, so a delete is modelled as
      removal. */
  function DeleteCategory(cats: seq<Category>, owner: string, search: string): (r: Result<seq<Category>>)
    ensures r.Failure? <==> CategoryRepository.GetCategory(cats, owner, search).Failure?
    ensures r.Failure? ==> r.error == CategoryRepository.GetCategory(cats, owner, search).error
    ensures r.Success? ==>
              var c := CategoryRepository.GetCategory(cats, owner, search).value;
              c.owner == owner && multiset(r.value) + multiset{c} == multiset(cats)
  {
    var i :- CategoryRepository.LookupIndex(cats, owner, search);
    assert cats == cats[..i] + [cats[i]] + cats[i + 1..];
    Success(cats[..i] + cats[i + 1..])
  }

  /** `getCategory`. */
  function GetCategory(cats: seq<Category>, owner: string, search: string): (r: Result<Category>)
    ensures r.Success? ==>
              r.value in cats && r.value.owner == owner && CategoryRepository.AnswersTo(r.value, Text.Lower(search))
    ensures r.Failure? <==> CategoryRepository.LookupIndex(cats, owner, search).Failure?
    ensures r.Failure? ==> r.error == CategoryRepository.LookupIndex(cats, owner, search).error
  {
    CategoryRepository.GetCategory(cats, owner, search)
  }

  /** `getCategories`: a non-empty search is checked first (a refused one throws
      a `TypeError`), then page `page` of the listing is wrapped by the offset
      paginator with the same `page` and `pageSize`. */
  function GetCategories(cats: seq<Category>, owner: string, page: int, pageSize: int, search: Option<string>): (r: Result<CommonService.BasicPage<Category>>)
    requires page >= 1 && pageSize >= 1
    ensures r.Failure? <==> search.Some? && search.value != "" && !Text.AllIn(search.value, CommonService.SearchChar)
    ensures r.Failure? ==> r.error == TypeError
    ensures r.Success? ==>
              var all := CategoryRepository.Listing(cats, owner, search);
              && r.value.totalCount == |all|
              && r.value.results == CategoryRepository.QueryCategories(cats, owner, page, pageSize, search).0
              && (r.value.hasNextPage <==> page * pageSize < |all|)
              && r.value.totalPages * pageSize >= |all|
  {
    if search.Some? && search.value != "" && CommonService.ValidateSearchInput(search.value).Failure? then
      Failure(TypeError)
    else
      var q := CategoryRepository.QueryCategories(cats, owner, page, pageSize, search);
      Success(CommonService.BasicPaginate(q.0, q.1, page, pageSize))
  }

  /** The listing's `hasNextPage` tells the truth: it holds exactly when the
      next page has rows. */
  lemma HasNextPageMeansMoreRows(cats: seq<Category>, owner: string, page: int, pageSize: int, search: Option<string>)
    requires page >= 1 && pageSize >= 1
    requires GetCategories(cats, owner, page, pageSize, search).Success?
    ensures GetCategories(cats, owner, page + 1, pageSize, search).Success?
    ensures GetCategories(cats, owner, page, pageSize, search).value.hasNextPage
            <==> |GetCategories(cats, owner, page + 1, pageSize, search).value.results| > 0
  {
  }

  /** A search term with a digit in it never reaches the query. */
  lemma DigitSearchRefused(cats: seq<Category>, owner: string, page: int, pageSize: int, search: string, i: int)
    requires page >= 1 && pageSize >= 1
    requires 0 <= i < |search| && Text.IsDigit(search[i])
    ensures GetCategories(cats, owner, page, pageSize, Some(search)) == Failure(TypeError)
  {
    CommonService.DigitsRefused(search, i);
  }
}
