/**
 The handler's extension-to-MIME-type switch: three known extensions, compared
 by exact string equality, and `text/html` for everything else.
 */
module ContentTypes {

  const DefaultType := "text/html"

  /* The switch's cases, as a lookup table. */
  const Table: map<string, string> :=
    map[".js" := "text/javascript", ".css" := "text/css", ".json" := "application/json"]

  /** The content type the handler announces for a file with extension `ext`. */
  function ContentTypeFor(ext: string): (t: string)
    ensures ext in Table ==> t == Table[ext]
    ensures ext !in Table ==> t == DefaultType
  {
    match ext
    case ".js" => "text/javascript"
    case ".css" => "text/css"
    case ".json" => "application/json"
    case _ => DefaultType
  }

  /** The default type is announced exactly for the extensions outside the
      table: no table entry maps to it. */
  lemma DefaultIffUnknown(ext: string)
    ensures ContentTypeFor(ext) == DefaultType <==> ext !in Table
  {
    if ext in Table {
      assert ext == ".js" || ext == ".css" || ext == ".json";
    }
  }

  /** Every announced type is a value of the table or the default type. */
  lemma ContentTypeRange(ext: string)
    ensures ContentTypeFor(ext) in Table.Values + {DefaultType}
  {
    if ext in Table {
      assert Table[ext] in Table.Values;
    }
  }

  /** Matching is exact: other spellings of a known extension, and the empty
      extension, get the default type. */
  lemma ExactMatching()
    ensures ContentTypeFor(".JS") == DefaultType
    ensures ContentTypeFor(".htm") == DefaultType
    ensures ContentTypeFor(".html") == DefaultType
    ensures ContentTypeFor("") == DefaultType
    ensures ContentTypeFor("js") == DefaultType
  {
  }
}
