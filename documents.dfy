/** Rows of the `documents` table (app/Models/Document.php) and the equality
    filter of a parameterised WHERE clause over them. */
module Documents {
  import opened Outcomes

  /** One row. The provider and dimension columns are nullable. */
  datatype Document = Document(
    sourceFileName: string,
    text: string,
    embedding: seq<real>,
    provider: Option<string>,
    dimension: Option<int>)

  /** A value bound to a `?` placeholder. */
  datatype Binding = StrParam(s: string) | IntParam(n: int)

  /** The row satisfies `embedding_provider = ? AND embedding_dimension = ?`.
      A NULL column compares unequal to every value. */
  predicate Tagged(d: Document, provider: string, dimension: int)
  {
    d.provider == Some(provider) && d.dimension == Some(dimension)
  }

  /** The rows that pass `WHERE embedding_provider = ? AND embedding_dimension = ?`,
      in table order (ranking and LIMIT happen afterwards). */
  function WhereTagged(rows: seq<Document>, provider: string, dimension: int): (r: seq<Document>)
    ensures |r| <= |rows|
    ensures forall d :: d in r <==> d in rows && Tagged(d, provider, dimension)
    ensures r == [] <==> forall k :: 0 <= k < |rows| ==> !Tagged(rows[k], provider, dimension)
  {
    if rows == [] then []
    else
      var rest := WhereTagged(rows[1..], provider, dimension);
      assert forall d :: d in rows <==> d == rows[0] || d in rows[1..];
      if Tagged(rows[0], provider, dimension) then [rows[0]] + rest else rest
  }
}
