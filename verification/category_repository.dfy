/** The category store (src/categories/repository/category.repository.ts):
    lookup of one category by id or by name, creation and renaming under the
    unique `(name, user)` constraint, and the paged, searchable listing. */
module CategoryRepository {
  import opened Results
  import Text
  import Sequences

  /** A category (src/categories/repository/category.entity.ts); `owner` is the
      id of the owning user. */
  datatype Category = Category(id: string, name: string, owner: string)

  /** The class `[\p{L}0-9_\-.\s']` a lookup term is checked against. */
  predicate TermChar(c: char) {
    Text.IsLetter(c) || Text.IsDigit(c) || c in "_-.'" || Text.IsSpace(c)
  }

  predicate IsHexDigit(c: char) {
    ('0' <= c <= '9') || ('a' <= c <= 'f') || ('A' <= c <= 'F')
  }

  /** The UUID shape `8-4-4-4-12` hexadecimal digits. (The `\b` assertions of
      the regex always hold between a hex digit and a hyphen.) */
  predicate IsUuid(s: string) {
    && |s| == 36
    && forall i :: 0 <= i < |s| ==> if i == 8 || i == 13 || i == 18 || i == 23 then s[i] == '-' else IsHexDigit(s[i])
  }

  /** A category answers to a lookup term: by id when the term has the UUID
      shape, by name otherwise. */
  predicate AnswersTo(c: Category, term: string) {
    if IsUuid(term) then c.id == term else c.name == term
  }

  /** The position of the category `getCategory` finds. The term is lower-cased
      first; a term outside the class is a `BadRequest`, a term that no category
      of the owner answers to a `NotFound`. */
  function LookupIndex(cats: seq<Category>, owner: string, search: string): (r: Result<nat>)
    ensures r.Success? ==> r.value < |cats|
    ensures r.Success? ==> cats[r.value].owner == owner && AnswersTo(cats[r.value], Text.Lower(search))
    ensures (r.Failure? && r.error == BadRequest) <==> !Text.AllIn(Text.Lower(search), TermChar)
    ensures (r.Failure? && r.error == NotFound) <==>
              && Text.AllIn(Text.Lower(search), TermChar)
              && forall c :: c in cats ==> !(c.owner == owner && AnswersTo(c, Text.Lower(search)))
    ensures r.Failure? ==> r.error == BadRequest || r.error == NotFound
  {
    var term := Text.Lower(search);
    if !Text.AllIn(term, TermChar) then Failure(BadRequest)
    else
      match Sequences.FindFirst(cats, (c: Category) => c.owner == owner && AnswersTo(c, term))
      case None => Failure(NotFound)
      case Some(i) => Success(i)
  }

  /** `getCategory`: the owner's category with the term's id or name. */
  function GetCategory(cats: seq<Category>, owner: string, search: string): (r: Result<Category>)
    ensures r.Success? ==> r.value in cats && r.value.owner == owner
    ensures r.Success? && IsUuid(Text.Lower(search)) ==> r.value.id == Text.Lower(search)
    ensures r.Success? && !IsUuid(Text.Lower(search)) ==> r.value.name == Text.Lower(search)
    ensures r.Failure? <==> LookupIndex(cats, owner, search).Failure?
    ensures r.Failure? ==> r.error == LookupIndex(cats, owner, search).error
  {
    var i :- LookupIndex(cats, owner, search);
    Success(cats[i])
  }

  /** The store keeps `(name, owner)` pairs and ids unique. */
  ghost predicate Unique(cats: seq<Category>) {
    && (forall i, j :: 0 <= i < j < |cats| ==> cats[i].id != cats[j].id)
    && (forall i, j :: 0 <= i < j < |cats| ==> !(cats[i].name == cats[j].name && cats[i].owner == cats[j].owner))
  }

  /** A row already holds the name for the owner, or the id. */
  predicate Clashes(cats: seq<Category>, c: Category) {
    exists k :: 0 <= k < |cats| && (cats[k].id == c.id || (cats[k].name == c.name && cats[k].owner == c.owner))
  }

  /** `createCategory`: the name is stored lower-cased; a clash with the unique
      constraints is a `Conflict`. `id` is the id the database generates. */
  function CreateCategory(cats: seq<Category>, owner: string, name: string, id: string): (r: Result<(seq<Category>, Category)>)
    ensures r.Success? ==> r.value.1 == Category(id, Text.Lower(name), owner) && r.value.0 == cats + [r.value.1]
    ensures r.Failure? <==> Clashes(cats, Category(id, Text.Lower(name), owner))
    ensures r.Failure? ==> r.error == Conflict
  {
    var c := Category(id, Text.Lower(name), owner);
    if Clashes(cats, c) then Failure(Conflict) else Success((cats + [c], c))
  }

  /** `updateCategory`: the resolved category takes the given name as it is; a
      name another category of the owner holds is a `Conflict`. */
  function UpdateCategory(cats: seq<Category>, owner: string, search: string, name: string): (r: Result<(seq<Category>, Category)>)
    ensures r.Success? ==>
              && LookupIndex(cats, owner, search).Success?
              && var i := LookupIndex(cats, owner, search).value;
              && r.value.1 == cats[i].(name := name)
              && r.value.0 == cats[i := r.value.1]
    ensures r.Failure? && r.error == Conflict ==>
              && LookupIndex(cats, owner, search).Success?
              && exists k :: 0 <= k < |cats| && k != LookupIndex(cats, owner, search).value
                   && cats[k].owner == owner && cats[k].name == name
    ensures r.Failure? && r.error != Conflict ==>
              LookupIndex(cats, owner, search).Failure? && r.error == LookupIndex(cats, owner, search).error
  {
    var i :- LookupIndex(cats, owner, search);
    var c := cats[i].(name := name);
    if exists k :: 0 <= k < |cats| && k != i && cats[k].owner == c.owner && cats[k].name == name then
      Failure(Conflict)
    else
      Success((cats[i := c], c))
  }

  /** Creation keeps the store's unique constraints. */
  lemma CreateKeepsUnique(cats: seq<Category>, owner: string, name: string, id: string)
    requires Unique(cats)
    requires CreateCategory(cats, owner, name, id).Success?
    ensures Unique(CreateCategory(cats, owner, name, id).value.0)
  {
    var c := Category(id, Text.Lower(name), owner);
    var s := cats + [c];
    forall i, j | 0 <= i < j < |s|
      ensures s[i].id != s[j].id && !(s[i].name == s[j].name && s[i].owner == s[j].owner)
    {
      if j == |cats| {
        assert s[i] == cats[i];
      }
    }
  }

  /** Renaming keeps the store's unique constraints. */
  lemma UpdateKeepsUnique(cats: seq<Category>, owner: string, search: string, name: string)
    requires Unique(cats)
    requires UpdateCategory(cats, owner, search, name).Success?
    ensures Unique(UpdateCategory(cats, owner, search, name).value.0)
  {
    var i := LookupIndex(cats, owner, search).value;
    var s := UpdateCategory(cats, owner, search, name).value.0;
    forall a, b | 0 <= a < b < |s|
      ensures s[a].id != s[b].id && !(s[a].name == s[b].name && s[a].owner == s[b].owner)
    {
      if a == i {
        assert !(cats[b].owner == owner && cats[b].name == name);
      } else if b == i {
        assert !(cats[a].owner == owner && cats[a].name == name);
      }
    }
  }

  /** A UUID-shaped name can never be looked up by name: the term is taken as
      an id. */
  lemma UuidShapedNameNotFoundByName(cats: seq<Category>, owner: string, term: string)
    requires IsUuid(term) && Text.Lower(term) == term && Text.AllIn(term, TermChar)
    requires forall c :: c in cats ==> c.id != term
    ensures GetCategory(cats, owner, term) == Failure(NotFound)
  {
  }

  // ---------------------------------------------------------------------------
  // queryCategories

  /** Name order (code-point order). */
  function ByName(): (Category, Category) -> bool {
    (a: Category, b: Category) => Text.LexLe(a.name, b.name)
  }

  lemma ByNameIsTotalPreorder()
    ensures Sequences.IsTotalPreorder(ByName())
  {
    forall a: Category, b: Category
      ensures Text.LexLe(a.name, b.name) || Text.LexLe(b.name, a.name)
    {
      Text.LexLeTotal(a.name, b.name);
    }
    forall a: Category, b: Category, c: Category | Text.LexLe(a.name, b.name) && Text.LexLe(b.name, c.name)
      ensures Text.LexLe(a.name, c.name)
    {
      Text.LexLeTransitive(a.name, b.name, c.name);
    }
  }

  /** The listing filter: the owner's categories, and, when a search is given,
      those whose name contains it lower-cased (`LIKE '%search%'`). */
  predicate Listed(c: Category, owner: string, search: Option<string>) {
    c.owner == owner && (search.None? || search.value == "" || Text.LikeContains(c.name, Text.Lower(search.value)))
  }

  /** All the categories the listing covers, each as often as it is stored, in
      name order. */
  function Listing(cats: seq<Category>, owner: string, search: Option<string>): (r: seq<Category>)
    ensures forall c :: c in r <==> c in cats && Listed(c, owner, search)
    ensures forall c :: multiset(r)[c] == if Listed(c, owner, search) then multiset(cats)[c] else 0
    ensures Sequences.SortedBy(r, ByName())
  {
    ByNameIsTotalPreorder();
    var selected := Sequences.Filter(cats, (c: Category) => Listed(c, owner, search));
    var r := Sequences.Sort(selected, ByName());
    Sequences.SameMembers(r, selected);
    r
  }

  /** `queryCategories`: page `page` of the listing, `pageSize` rows from row
      `(page - 1) * pageSize`, and the size of the whole listing. `page` and
      `pageSize` are at least 1 (src/common/inputs/basic-pagination.input.ts). */
  function QueryCategories(cats: seq<Category>, owner: string, page: int, pageSize: int, search: Option<string>): (r: (seq<Category>, nat))
    requires page >= 1 && pageSize >= 1
    ensures var all, skip := Listing(cats, owner, search), (page - 1) * pageSize;
            && r.1 == |all|
            && |r.0| == (if skip >= |all| then 0 else if skip + pageSize <= |all| then pageSize else |all| - skip)
            && forall i :: 0 <= i < |r.0| ==> r.0[i] == all[skip + i]
  {
    var all := Listing(cats, owner, search);
    assert (page - 1) * pageSize >= 0;
    (Sequences.Window(all, (page - 1) * pageSize, pageSize), |all|)
  }

  /** Every row of a page is one of the owner's categories and satisfies the
      search. */
  lemma PageRowsAreListed(cats: seq<Category>, owner: string, page: int, pageSize: int, search: Option<string>, c: Category)
    requires page >= 1 && pageSize >= 1
    requires c in QueryCategories(cats, owner, page, pageSize, search).0
    ensures c in cats && Listed(c, owner, search)
  {
    var all := Listing(cats, owner, search);
    assert c in all;
  }
}
