/** Menu category records and the queries the service runs against the
    category table: select by language, find by id, and the title test that
    guards creation. */
module Categories {
  import opened Errors

  /** Row ids are generated by the database; here they are naturals handed
      out by the store. */
  type Id = nat

  /** A language code. The empty string stands for a field the request
      left unset. */
  type Language = string

  /** One row of the category table. `isAvailable == None` is the column's
      schema default; `imageUrl == None` is a row created without an image. */
  datatype Category = Category(
    id: Id,
    language: Language,
    title: string,
    description: string,
    isAvailable: Option<bool>,
    imageUrl: Option<string>,
    position: int)

  datatype CreateRequest = CreateRequest(
    language: Language,
    title: string,
    description: string,
    isAvailable: Option<bool>,
    imageUrl: string)

  /** Empty strings and `None` mean "leave this field as it is". */
  datatype UpdateRequest = UpdateRequest(
    id: Id,
    language: Language,
    title: string,
    description: string,
    isAvailable: Option<bool>,
    imageUrl: string)

  datatype StatusResponse = StatusResponse(success: bool, message: string)

  /** No two rows share an id (the table's primary key). */
  predicate UniqueIds(rows: seq<Category>) {
    forall i, j :: 0 <= i < |rows| && 0 <= j < |rows| && rows[i].id == rows[j].id ==> i == j
  }

  /** The rows of one language, in table order (`findMany` with a
      `where: { language }` filter). */
  function OfLanguage(rows: seq<Category>, lang: Language): (r: seq<Category>)
    ensures |r| <= |rows|
    ensures forall c :: c in r <==> c in rows && c.language == lang
  {
    if rows == [] then []
    else if rows[0].language == lang then [rows[0]] + OfLanguage(rows[1..], lang)
    else OfLanguage(rows[1..], lang)
  }

  /** Where the row with `id` sits in the table (`findUnique` by id). */
  function IndexOf(rows: seq<Category>, id: Id): (r: Option<nat>)
    ensures r.Some? ==> r.value < |rows| && rows[r.value].id == id
    ensures r.None? ==> forall i :: 0 <= i < |rows| ==> rows[i].id != id
  {
    if rows == [] then None
    else if rows[0].id == id then Some(0)
    else match IndexOf(rows[1..], id)
      case None => None
      case Some(k) => Some(k + 1)
  }

  /** Whether some row of `cats` already carries `title`. */
  predicate HasTitle(cats: seq<Category>, title: string) {
    exists c :: c in cats && c.title == title
  }
}
