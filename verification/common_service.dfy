/** The shared helpers of the services (src/common/common.service.ts): the
    offset paginator, the cursor paginator with its opaque cursor codec, the
    field-copy update helper and the check on free-text search input. */
module CommonService {
  import opened Results
  import Base64
  import Utf8
  import Decimal
  import Text

  // ---------------------------------------------------------------------------
  // Offset pagination

  /** `IBasicPaginated<T>` (src/common/types/basic-pagination.type.ts). */
  datatype BasicPage<T> = BasicPage(results: seq<T>, totalCount: nat, totalPages: int, hasNextPage: bool)

  /** `basicPaginate`: the page as given, with `totalPages = ceil(totalCount /
      pageSize)` and `hasNextPage = page * pageSize < totalCount`. The input
      validator guarantees `pageSize >= 1`. */
  function BasicPaginate<T>(instances: seq<T>, totalCount: nat, page: int, pageSize: int): (r: BasicPage<T>)
    requires pageSize >= 1
    ensures r.results == instances && r.totalCount == totalCount
    ensures r.totalPages >= 0
    // totalPages is the least number of pages of pageSize that hold totalCount rows
    ensures r.totalPages * pageSize >= totalCount
    ensures r.totalPages == 0 || (r.totalPages - 1) * pageSize < totalCount
    ensures r.hasNextPage <==> page * pageSize < totalCount
  {
    var q := (totalCount + pageSize - 1) / pageSize;
    assert q * pageSize >= totalCount && (q == 0 || (q - 1) * pageSize < totalCount) by {
      var rem := (totalCount + pageSize - 1) % pageSize;
      assert totalCount + pageSize - 1 == q * pageSize + rem;
      assert (q - 1) * pageSize == q * pageSize - pageSize;
    }
    BasicPage(instances, totalCount, q, page * pageSize < totalCount)
  }

  lemma MulMonotone(a: int, b: int, k: int)
    requires a <= b && k >= 1
    ensures a * k <= b * k
  {
  }

  /** There is a next page exactly when the requested page comes before the
      last one. */
  lemma HasNextPageBeforeLastPage<T>(instances: seq<T>, totalCount: nat, page: int, pageSize: int)
    requires pageSize >= 1
    ensures var r := BasicPaginate(instances, totalCount, page, pageSize);
            r.hasNextPage <==> page < r.totalPages
  {
    var r := BasicPaginate(instances, totalCount, page, pageSize);
    if page < r.totalPages {
      MulMonotone(page, r.totalPages - 1, pageSize);
    } else {
      MulMonotone(r.totalPages, page, pageSize);
    }
  }

  /** 25 rows in pages of 10, third page: three pages, none after it. */
  lemma OffsetPageExample()
    ensures var r := BasicPaginate<int>([], 25, 3, 10);
            r.totalPages == 3 && !r.hasNextPage
  {
  }

  // ---------------------------------------------------------------------------
  // Cursor codec

  /** The value of the sort field a cursor is built from. */
  datatype CursorValue = StringValue(s: string) | NumberValue(n: int)

  /** The text a cursor carries: a number is first turned into its decimal string. */
  function StringForm(v: CursorValue): string {
    match v
    case StringValue(s) => s
    case NumberValue(n) => Decimal.IntToString(n)
  }

  /** `decodeCursor`: base64, then UTF-8. `None` when the bytes are not
      well-formed UTF-8. */
  function DecodeCursor(cursor: string): Option<string>
    requires Base64.IsBase64(cursor)
  {
    Utf8.Decode(Base64.Decode(cursor))
  }

  /** `encodeCursor`: the UTF-8 bytes of the value's text, in base64. The result
      passes the base64 validator and decodes back to the value's text. */
  function EncodeCursor(v: CursorValue): (cursor: string)
    ensures Base64.IsBase64(cursor)
    ensures DecodeCursor(cursor) == Some(StringForm(v))
  {
    var bytes := Utf8.Encode(StringForm(v));
    Base64.DecodeEncode(bytes);
    Utf8.DecodeEncode(StringForm(v));
    Base64.Encode(bytes)
  }

  /** A cursor built from a number reads back, through `parseInt`, as that number. */
  lemma NumberCursorParses(n: int)
    ensures DecodeCursor(EncodeCursor(NumberValue(n))) == Some(Decimal.IntToString(n))
    ensures Decimal.ParseInt(Decimal.IntToString(n)) == Some(n)
  {
    Decimal.ParseIntToString(n);
  }

  // ---------------------------------------------------------------------------
  // Cursor pagination

  datatype Edge<T> = Edge(cursor: string, node: T)
  datatype PageInfo = PageInfo(endCursor: string, hasNextPage: bool)

  /** `ICursorPaginated<T>` (src/common/types/cursor-pagination.type.ts). */
  datatype Connection<T> = Connection(totalCount: nat, edges: seq<Edge<T>>, pageInfo: PageInfo)

  /** One edge per instance, each with the cursor of its field value. */
  function EdgesOf<T>(instances: seq<T>, field: T -> CursorValue): (r: seq<Edge<T>>)
    ensures |r| == |instances|
    ensures forall i :: 0 <= i < |instances| ==> r[i].node == instances[i]
    ensures forall i :: 0 <= i < |instances| ==>
              && Base64.IsBase64(r[i].cursor)
              && DecodeCursor(r[i].cursor) == Some(StringForm(field(instances[i])))
  {
    seq(|instances|, i requires 0 <= i < |instances| => Edge(EncodeCursor(field(instances[i])), instances[i]))
  }

  /** `cursorPaginate`: one edge per instance, in order, each carrying the
      instance and the cursor of its `field` value (`field` is given as the
      function reading it). The source reads `edges[edges.length - 1]` without a
      guard, so it needs at least one instance. */
  function CursorPaginate<T>(instances: seq<T>, totalCount: nat, field: T -> CursorValue, first: int): (r: Connection<T>)
    requires |instances| > 0
    ensures r.totalCount == totalCount
    ensures |r.edges| == |instances|
    ensures forall i :: 0 <= i < |instances| ==> r.edges[i].node == instances[i]
    // every cursor is a valid base64 string that decodes to the text of its node's field
    ensures forall i :: 0 <= i < |instances| ==>
              && Base64.IsBase64(r.edges[i].cursor)
              && DecodeCursor(r.edges[i].cursor) == Some(StringForm(field(instances[i])))
    ensures r.pageInfo.endCursor == r.edges[|r.edges| - 1].cursor
    ensures r.pageInfo.hasNextPage <==> totalCount > first
  {
    var edges := EdgesOf(instances, field);
    Connection(totalCount, edges, PageInfo(edges[|edges| - 1].cursor, totalCount > first))
  }

  // ---------------------------------------------------------------------------
  // Field-copy update

  /** The JavaScript values an input field can hold. */
  datatype JsValue = Undefined | Null | Bool(b: bool) | Num(n: int) | Str(s: string)

  /** JavaScript truthiness: `undefined`, `null`, `false`, `0` and `''` are falsy. */
  predicate Truthy(v: JsValue) {
    match v
    case Undefined => false
    case Null => false
    case Bool(b) => b
    case Num(n) => n != 0
    case Str(s) => s != ""
  }

  /** `updateInstance` on the entity's fields (the final `save` is left out):
      every key whose input value is truthy is assigned, every other field of the
      entity keeps its value, and nothing else is added. `truthy` decides
      truthiness for the value type at hand. */
  function UpdateInstance<K(!new), V(!new)>(input: map<K, V>, entity: map<K, V>, truthy: V -> bool): (r: map<K, V>)
    ensures forall k :: k in r <==> k in entity || (k in input && truthy(input[k]))
    ensures forall k :: k in input && truthy(input[k]) ==> r[k] == input[k]
    ensures forall k :: k in entity && !(k in input && truthy(input[k])) ==> r[k] == entity[k]
  {
    map k | k in entity.Keys + input.Keys && (k in entity || truthy(input[k]))
      :: if k in input && truthy(input[k]) then input[k] else entity[k]
  }

  /** Copying an input none of whose values is truthy changes nothing. */
  lemma UpdateWithNothingTruthy<K(!new), V(!new)>(input: map<K, V>, entity: map<K, V>, truthy: V -> bool)
    requires forall k :: k in input ==> !truthy(input[k])
    ensures UpdateInstance(input, entity, truthy) == entity
  {
  }

  // ---------------------------------------------------------------------------
  // Search input check

  /** The class `[\p{L}_\-.,!\?;:"\s']`: letters, these punctuation marks and
      white space; no digits. */
  predicate SearchChar(c: char) {
    Text.IsLetter(c) || c in "_-.,!?;:\"'" || Text.IsSpace(c)
  }

  /** `validateSearchInput`. A string outside the class makes `match` return
      `null`, and reading `.length` of `null` throws a `TypeError`; the
      `BadRequest` branch (`length === 0`) is never taken, since a match has
      length 2. */
  function ValidateSearchInput(search: string): (r: Result<()>)
    ensures r.Success? <==> Text.AllIn(search, SearchChar)
    ensures r.Failure? ==> r.error == TypeError
  {
    if Text.AllIn(search, SearchChar) then Success(()) else Failure(TypeError)
  }

  /** A search term with a digit in it is refused, with a runtime error rather
      than a `BadRequest`. */
  lemma DigitsRefused(search: string, i: int)
    requires 0 <= i < |search| && Text.IsDigit(search[i])
    ensures ValidateSearchInput(search) == Failure(TypeError)
  {
  }
}
