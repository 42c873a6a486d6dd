/** The blog controller's pure parts: how createBlog turns a multipart
    request into the eight values it inserts, how every read endpoint maps a
    stored row to its JSON response, and safeParseJSON. */
module Blog {
  import opened JsValues

  const UploadPrefix: string := "/uploads/blogs/"
  const DefaultAuthor: string := "Inflecto Technologies"
  const DefaultCategory: string := "AI & Automation"
  const MissingFields: string := "blog_title and blog_description are required"

  /** The request-body fields createBlog reads; None is undefined. */
  datatype BlogForm = BlogForm(title: Option<Json>, author: Option<Json>, category: Option<Json>,
                               keywords: Option<Json>, description: Option<Json>,
                               points: Option<Json>)

  /** An upload the storage engine kept; only its generated name matters. */
  datatype StoredFile = StoredFile(filename: string)

  /** req.files: each field holds its array of uploads; None when the field
      is absent or not an array. */
  datatype UploadedFiles = UploadedFiles(titleImage: Option<seq<StoredFile>>,
                                         images: Option<seq<StoredFile>>)

  /** safeParseJSON: `parsed` is what JSON.parse returns, None when it
      throws; a failed parse gives an empty array and never an error. */
  function SafeParseJson(parsed: Option<Json>): (v: Json)
    ensures parsed.None? ==> v == JArr([])
    ensures parsed.Some? ==> v == parsed.value
  {
    parsed.GetOr(JArr([]))
  }

  /** String.prototype.split with a one-character separator. */
  function Split(s: string, sep: char): (parts: seq<string>)
    ensures |parts| >= 1
    ensures forall i :: 0 <= i < |parts| ==> sep !in parts[i]
  {
    if |s| == 0 then [""]
    else
      var rest := Split(s[1..], sep);
      if s[0] == sep then [""] + rest else [[s[0]] + rest[0]] + rest[1..]
  }

  /** Array.prototype.join with a one-character separator. */
  function Join(parts: seq<string>, sep: char): string
    requires |parts| >= 1
  {
    if |parts| == 1 then parts[0] else parts[0] + [sep] + Join(parts[1..], sep)
  }

  /** Splitting loses nothing: joining the parts restores the text. */
  lemma {:induction false} SplitJoinRoundTrip(s: string, sep: char)
    ensures Join(Split(s, sep), sep) == s
  {
    if |s| > 0 {
      var rest := Split(s[1..], sep);
      SplitJoinRoundTrip(s[1..], sep);
      if s[0] == sep {
        assert ([""] + rest)[1..] == rest;
      } else {
        var parts := [[s[0]] + rest[0]] + rest[1..];
        if |rest| == 1 {
          assert parts == [[s[0]] + rest[0]];
        } else {
          assert parts[1..] == rest[1..];
          assert Join(rest, sep) == rest[0] + [sep] + Join(rest[1..], sep);
        }
      }
    }
  }

  /** Each part trimmed, in order. */
  function TrimAll(parts: seq<string>): (r: seq<string>)
    ensures |r| == |parts|
    ensures forall i :: 0 <= i < |r| ==> r[i] == Trim(parts[i])
  {
    if |parts| == 0 then [] else [Trim(parts[0])] + TrimAll(parts[1..])
  }

  /** `.filter(Boolean)` on strings: the non-empty ones, in order (see
      `NonEmptyAppend`), each as often as it occurs (see `NonEmptyCounts`). */
  function NonEmpty(parts: seq<string>): (r: seq<string>)
    ensures forall i :: 0 <= i < |r| ==> r[i] != ""
    ensures forall x :: x in r <==> x in parts && x != ""
  {
    if |parts| == 0 then []
    else if parts[0] == "" then NonEmpty(parts[1..])
    else [parts[0]] + NonEmpty(parts[1..])
  }

  /** Filtering a concatenation filters each part, keeping their order. */
  lemma {:induction false} NonEmptyAppend(a: seq<string>, b: seq<string>)
    ensures NonEmpty(a + b) == NonEmpty(a) + NonEmpty(b)
  {
    if |a| == 0 {
      assert a + b == b;
    } else {
      assert (a + b)[0] == a[0];
      assert (a + b)[1..] == a[1..] + b;
      NonEmptyAppend(a[1..], b);
    }
  }

  /** Only empty strings are dropped, and every copy of the others is kept. */
  lemma {:induction false} NonEmptyCounts(parts: seq<string>)
    ensures multiset(NonEmpty(parts)) <= multiset(parts)
    ensures forall x :: x != "" ==> multiset(NonEmpty(parts))[x] == multiset(parts)[x]
  {
    if |parts| > 0 {
      assert parts == [parts[0]] + parts[1..];
      NonEmptyCounts(parts[1..]);
    }
  }

  /** A stored keyword: non-empty, comma-free, and trimmed at both ends. */
  predicate IsKeyword(k: string) {
    k != "" && ',' !in k && !IsJsSpace(k[0]) && !IsJsSpace(k[|k| - 1])
  }

  /** The keywords of a comma-separated string: each piece trimmed, blank
      pieces dropped. */
  function SplitKeywords(s: string): (ks: seq<string>)
    ensures forall k :: k in ks <==> k != "" && k in TrimAll(Split(s, ','))
    ensures forall k :: k in ks ==> IsKeyword(k)
  {
    var trimmed := TrimAll(Split(s, ','));
    TrimmedPiecesAreKeywords(Split(s, ','));
    NonEmpty(trimmed)
  }

  /** A non-blank trimmed piece of a comma split is a keyword. */
  lemma TrimmedPiecesAreKeywords(parts: seq<string>)
    requires forall i :: 0 <= i < |parts| ==> ',' !in parts[i]
    ensures forall k :: k in TrimAll(parts) && k != "" ==> IsKeyword(k)
  {
    var trimmed := TrimAll(parts);
    forall k | k in trimmed && k != "" ensures IsKeyword(k) {
      var i :| 0 <= i < |trimmed| && trimmed[i] == k;
      assert ',' !in parts[i];
    }
  }

  /** A text without commas is a single keyword, or none when blank. */
  lemma SingleKeyword(s: string)
    requires ',' !in s
    ensures SplitKeywords(s) == if Trim(s) == "" then [] else [Trim(s)]
  {
    SplitWithoutSeparator(s, ',');
    assert TrimAll([s]) == [Trim(s)];
    assert NonEmpty([Trim(s)]) == (if Trim(s) == "" then [] else [Trim(s)]) + NonEmpty([]);
  }

  /** The keywords of two texts joined by a comma are those of the first
      followed by those of the second; with `SingleKeyword` this fixes the
      order and multiplicity of every keyword list. */
  lemma SplitKeywordsAppend(a: string, b: string)
    ensures SplitKeywords(a + "," + b) == SplitKeywords(a) + SplitKeywords(b)
  {
    var pa := Split(a, ',');
    var pb := Split(b, ',');
    calc {
      SplitKeywords(a + "," + b);
      { KeywordsOfParts(a + "," + b); }
      NonEmpty(TrimAll(Split(a + "," + b, ',')));
      { SplitAppend(a, b, ','); }
      NonEmpty(TrimAll(pa + pb));
      { TrimAllAppend(pa, pb); }
      NonEmpty(TrimAll(pa) + TrimAll(pb));
      { NonEmptyAppend(TrimAll(pa), TrimAll(pb)); }
      NonEmpty(TrimAll(pa)) + NonEmpty(TrimAll(pb));
      { KeywordsOfParts(a); KeywordsOfParts(b); }
      SplitKeywords(a) + SplitKeywords(b);
    }
  }

  lemma KeywordsOfParts(s: string)
    ensures SplitKeywords(s) == NonEmpty(TrimAll(Split(s, ',')))
  {
  }

  lemma {:induction false} TrimAllAppend(a: seq<string>, b: seq<string>)
    ensures TrimAll(a + b) == TrimAll(a) + TrimAll(b)
  {
    if |a| == 0 {
      assert a + b == b;
    } else {
      assert (a + b)[0] == a[0];
      assert (a + b)[1..] == a[1..] + b;
      TrimAllAppend(a[1..], b);
    }
  }

  /** Splitting at one separator splits the two sides independently. */
  lemma {:induction false} SplitAppend(a: string, b: string, sep: char)
    ensures Split(a + [sep] + b, sep) == Split(a, sep) + Split(b, sep)
  {
    var s := a + [sep] + b;
    if |a| == 0 {
      assert s == [sep] + b;
      assert s[1..] == b;
    } else {
      assert s[0] == a[0];
      assert s[1..] == a[1..] + [sep] + b;
      SplitAppend(a[1..], b, sep);
    }
  }

  lemma {:induction false} SplitWithoutSeparator(s: string, sep: char)
    requires sep !in s
    ensures Split(s, sep) == [s]
  {
    if |s| > 0 {
      assert sep !in s[1..];
      SplitWithoutSeparator(s[1..], sep);
      assert [s[0]] + s[1..] == s;
    }
  }

  /** keywordsArray: an array is kept as it is, a non-blank string is split
      into keywords, anything else gives none. */
  function NormaliseKeywords(kw: Option<Json>): (ks: seq<Json>)
    ensures kw.Some? && kw.value.JArr? ==> ks == kw.value.elems
    ensures !(kw.Some? && (kw.value.JArr? || kw.value.JStr?)) ==> ks == []
    ensures kw.Some? && kw.value.JStr? && Trim(kw.value.s) == "" ==> ks == []
    ensures kw.Some? && kw.value.JStr? && Trim(kw.value.s) != "" ==>
      |ks| == |SplitKeywords(kw.value.s)|
    ensures kw.Some? && kw.value.JStr? && Trim(kw.value.s) != "" ==>
      forall i :: 0 <= i < |ks| ==> ks[i] == JStr(SplitKeywords(kw.value.s)[i])
  {
    match kw
    case Some(JArr(xs)) => xs
    case Some(JStr(s)) =>
      if Trim(s) == "" then []
      else
        var parts := SplitKeywords(s);
        seq(|parts|, i requires 0 <= i < |parts| => JStr(parts[i]))
    case _ => []
  }

  /** Where an upload is served from. */
  function ImagePath(f: StoredFile): (p: string)
    ensures UploadPrefix <= p && p[|UploadPrefix|..] == f.filename
  {
    UploadPrefix + f.filename
  }

  /** titleImagePath: the first title-image upload's path, null without one. */
  function TitleImagePath(files: UploadedFiles): (p: Json)
    ensures p == JNull <==> files.titleImage.None? || |files.titleImage.value| == 0
    ensures p != JNull ==> p == JStr(ImagePath(files.titleImage.value[0]))
  {
    match files.titleImage
    case Some(fs) => if |fs| > 0 then JStr(ImagePath(fs[0])) else JNull
    case None => JNull
  }

  /** imagesArray: one path per image upload, in upload order. */
  function ImagePaths(files: UploadedFiles): (ps: seq<Json>)
    ensures files.images.None? ==> ps == []
    ensures files.images.Some? ==> |ps| == |files.images.value|
    ensures files.images.Some? ==>
      forall i :: 0 <= i < |ps| ==> ps[i] == JStr(ImagePath(files.images.value[i]))
  {
    var fs := files.images.GetOr([]);
    seq(|fs|, i requires 0 <= i < |fs| => JStr(ImagePath(fs[i])))
  }

  /** parsedPoints: an array as it is, a non-blank string through
      safeParseJSON, anything else an empty array. `parse` is JSON.parse. */
  function ParsedPoints(points: Option<Json>, parse: string -> Option<Json>): (p: Json)
    ensures points.Some? && points.value.JArr? ==> p == points.value
    ensures points.Some? && points.value.JStr? && Trim(points.value.s) != "" ==>
      p == SafeParseJson(parse(points.value.s))
    ensures (!(points.Some? && points.value.JArr?) &&
             !(points.Some? && points.value.JStr? && Trim(points.value.s) != "")) ==> p == JArr([])
  {
    match points
    case Some(JArr(xs)) => JArr(xs)
    case Some(JStr(s)) => if Trim(s) != "" then SafeParseJson(parse(s)) else JArr([])
    case _ => JArr([])
  }

  /** pointsValue: null unless the parsed points are a non-empty array. The
      column receives that array's JSON text, which the JSONB column stores
      as the array itself; the model keeps the array. */
  function PointsColumn(points: Option<Json>, parse: string -> Option<Json>): (c: Json)
    ensures c == JNull || (c.JArr? && |c.elems| > 0)
    ensures c != JNull <==> ParsedPoints(points, parse).JArr? && |ParsedPoints(points, parse).elems| > 0
    ensures c != JNull ==> c == ParsedPoints(points, parse)
  {
    var p := ParsedPoints(points, parse);
    if p.JArr? && |p.elems| > 0 then p else JNull
  }

  /** The eight values createBlog inserts, in column order; array columns
      are None for SQL NULL. */
  datatype BlogInsert = BlogInsert(title: Json, author: Json, category: Json,
                                   keywords: Option<seq<Json>>, titleImage: Json,
                                   images: Option<seq<Json>>, description: Json, points: Json)

  datatype CreateOutcome =
    | Rejected(status: int, error: string)
    | Insert(values: BlogInsert)

  /** `x || null`. */
  function OrNull(x: Option<Json>): (v: Json)
    ensures Truthy(x) ==> v == x.value
    ensures !Truthy(x) ==> v == JNull
  {
    if Truthy(x) then x.value else JNull
  }

  /** An array column: NULL when empty. */
  function NullIfEmpty(xs: seq<Json>): (c: Option<seq<Json>>)
    ensures c.None? <==> xs == []
    ensures c.Some? ==> c.value == xs
  {
    if |xs| > 0 then Some(xs) else None
  }

  /** createBlog up to the INSERT: refuses a request missing a title or a
      description with 400 and inserts nothing; otherwise normalises every
      field. */
  function CreateBlog(form: BlogForm, files: UploadedFiles, parse: string -> Option<Json>): (r: CreateOutcome)
    ensures r.Rejected? <==> !Truthy(form.title) || !Truthy(form.description)
    ensures r.Rejected? ==> r.status == 400 && r.error == MissingFields
    ensures r.Insert? ==>
      && r.values.title == form.title.value
      && r.values.description == form.description.value
      && r.values.author == OrNull(form.author)
      && r.values.category == OrNull(form.category)
      && r.values.keywords == NullIfEmpty(NormaliseKeywords(form.keywords))
      && r.values.titleImage == TitleImagePath(files)
      && r.values.images == NullIfEmpty(ImagePaths(files))
      && r.values.points == PointsColumn(form.points, parse)
  {
    if !Truthy(form.title) || !Truthy(form.description) then Rejected(400, MissingFields)
    else
      Insert(BlogInsert(form.title.value, OrNull(form.author), OrNull(form.category),
                        NullIfEmpty(NormaliseKeywords(form.keywords)), TitleImagePath(files),
                        NullIfEmpty(ImagePaths(files)), form.description.value,
                        PointsColumn(form.points, parse)))
  }

  /** Every image path createBlog stores lies under the upload prefix. */
  lemma StoredImagePathsUnderPrefix(form: BlogForm, files: UploadedFiles, parse: string -> Option<Json>)
    requires CreateBlog(form, files, parse).Insert?
    ensures var v := CreateBlog(form, files, parse).values;
      && (v.titleImage == JNull || (v.titleImage.JStr? && UploadPrefix <= v.titleImage.s))
      && (v.images.Some? ==> forall i :: 0 <= i < |v.images.value| ==>
            v.images.value[i].JStr? && UploadPrefix <= v.images.value[i].s)
  {
  }

  /** A blogs row as the database returns it; `points` is the JSONB value,
      JNull for SQL NULL. */
  datatype Row = Row(id: int, title: Json, author: Json, category: Json,
                     keywords: Option<seq<Json>>, titleImage: Json, images: Option<seq<Json>>,
                     description: Json, points: Json, createdAt: int)

  /** What a TEXT column, or one element of a TEXT[] column, returns for a
      query parameter: node-postgres sends null as NULL and any other
      primitive as its toString() text, so a number or a boolean comes back
      as a string. An array or object is kept as it is (see README). */
  function AsText(v: Json): (r: Json)
    ensures r.JNull? <==> v.JNull?
    ensures v.JStr? ==> r == v
    ensures v.JNum? || v.JBool? ==> r == JStr(ToText(v))
    ensures v.JArr? || v.JObj? ==> r == v
  {
    match v
    case JNum(_) => JStr(ToText(v))
    case JBool(_) => JStr(ToText(v))
    case _ => v
  }

  /** Storing text again changes nothing: what a TEXT column returns reads
      back as itself. */
  lemma AsTextIdempotent(v: Json)
    ensures AsText(AsText(v)) == AsText(v)
  {
  }

  /** A truthy value stays truthy once stored as text, so the `||` defaults
      of mapBlogRowToResponse never replace a stored value. */
  lemma AsTextKeepsTruthy(v: Json)
    requires Truthy(Some(v))
    ensures Truthy(Some(AsText(v)))
  {
    if v.JNum? {
      var n := v.n;
      if n < 0 {
        assert |NatToDecimal(-n)| >= 1;
      } else {
        assert |NatToDecimal(n)| >= 1;
      }
    }
  }

  /** A non-negative number is stored as its decimal digits, which read
      back as the same number. */
  lemma NumberTextRoundTrip(n: JsInt)
    requires n >= 0
    ensures var r := AsText(JNum(n));
      && r.JStr?
      && (forall i :: 0 <= i < |r.s| ==> '0' <= r.s[i] <= '9')
      && DecimalValue(r.s) == n
  {
    DecimalRoundTrip(n);
  }

  /** A TEXT[] column: each element as text, NULL for a NULL array. */
  function AsTextArray(xs: Option<seq<Json>>): (ys: Option<seq<Json>>)
    ensures ys.None? <==> xs.None?
    ensures ys.Some? ==> |ys.value| == |xs.value|
    ensures ys.Some? ==> forall i :: 0 <= i < |ys.value| ==> ys.value[i] == AsText(xs.value[i])
  {
    match xs
    case None => None
    case Some(a) => Some(seq(|a|, i requires 0 <= i < |a| => AsText(a[i])))
  }

  /** INSERT ... RETURNING *: the row the database hands back, with the
      generated id and timestamp. The text columns return their values as
      text, the arrays element by element, and the JSONB points as the
      array that was sent. */
  function InsertedRow(v: BlogInsert, id: int, createdAt: int): (row: Row)
    ensures row.id == id && row.createdAt == createdAt
    ensures row.title == AsText(v.title) && row.description == AsText(v.description)
    ensures row.author == AsText(v.author) && row.category == AsText(v.category)
    ensures row.titleImage == AsText(v.titleImage)
    ensures row.keywords == AsTextArray(v.keywords) && row.images == AsTextArray(v.images)
    ensures row.points == v.points
  {
    Row(id, AsText(v.title), AsText(v.author), AsText(v.category), AsTextArray(v.keywords),
        AsText(v.titleImage), AsTextArray(v.images), AsText(v.description), v.points, createdAt)
  }

  /** A row whose values were all strings, or NULL, holds exactly what was
      inserted. */
  lemma StringValuesStoredUnchanged(v: BlogInsert, id: int, createdAt: int)
    requires v.title.JStr? || v.title.JNull?
    requires v.author.JStr? || v.author.JNull?
    requires v.category.JStr? || v.category.JNull?
    requires v.titleImage.JStr? || v.titleImage.JNull?
    requires v.description.JStr? || v.description.JNull?
    requires v.keywords.Some? ==> forall i :: 0 <= i < |v.keywords.value| ==> v.keywords.value[i].JStr?
    requires v.images.Some? ==> forall i :: 0 <= i < |v.images.value| ==> v.images.value[i].JStr?
    ensures InsertedRow(v, id, createdAt) ==
      Row(id, v.title, v.author, v.category, v.keywords, v.titleImage, v.images,
          v.description, v.points, createdAt)
  {
    var row := InsertedRow(v, id, createdAt);
    if v.keywords.Some? {
      assert row.keywords.value == v.keywords.value;
    }
    if v.images.Some? {
      assert row.images.value == v.images.value;
    }
  }

  /** The JSON a blog is served as. */
  datatype BlogResponse = BlogResponse(id: int, title: Json, author: Json, category: Json,
                                       date: int, description: Json, tags: seq<Json>,
                                       image: Json, content: Json, points: seq<Json>)

  /** The points of a row: a string column value goes through
      safeParseJSON, a falsy one counts as empty, and anything but an array
      becomes an empty array. */
  function RowPoints(col: Json, parse: string -> Option<Json>): (ps: seq<Json>)
    ensures col.JArr? ==> ps == col.elems
    ensures col.JStr? ==> ps == (if SafeParseJson(parse(col.s)).JArr? then SafeParseJson(parse(col.s)).elems else [])
    ensures !col.JArr? && !col.JStr? ==> ps == []
  {
    var points := if col.JStr? then SafeParseJson(parse(col.s))
                  else if Truthy(Some(col)) then col else JArr([]);
    if points.JArr? then points.elems else []
  }

  /** mapBlogRowToResponse: defaults for a missing author or category,
      no tags for NULL keywords, the description doubling as content, and
      points always an array. */
  function MapRow(row: Row, parse: string -> Option<Json>): (b: BlogResponse)
    ensures b.author == (if Truthy(Some(row.author)) then row.author else JStr(DefaultAuthor))
    ensures b.category == (if Truthy(Some(row.category)) then row.category else JStr(DefaultCategory))
    ensures b.tags == row.keywords.GetOr([])
    ensures b.content == b.description == row.description
    ensures b.points == RowPoints(row.points, parse)
    ensures b.id == row.id && b.title == row.title && b.image == row.titleImage && b.date == row.createdAt
  {
    BlogResponse(row.id, row.title,
                 if Truthy(Some(row.author)) then row.author else JStr(DefaultAuthor),
                 if Truthy(Some(row.category)) then row.category else JStr(DefaultCategory),
                 row.createdAt, row.description, row.keywords.GetOr([]), row.titleImage,
                 row.description, RowPoints(row.points, parse))
  }

  /** What createBlog answers with is what it was given, normalised and
      stored as text: the keywords and points read back as normalised (an
      empty list stored as NULL reads back empty), a number or boolean
      field reads back as its text, and a missing author or category reads
      back as the default. */
  lemma CreatedBlogReadsBack(form: BlogForm, files: UploadedFiles, parse: string -> Option<Json>,
                             id: int, createdAt: int)
    requires CreateBlog(form, files, parse).Insert?
    ensures var b := MapRow(InsertedRow(CreateBlog(form, files, parse).values, id, createdAt), parse);
      var p := ParsedPoints(form.points, parse);
      var ks := NormaliseKeywords(form.keywords);
      && |b.tags| == |ks|
      && (forall i :: 0 <= i < |ks| ==> b.tags[i] == AsText(ks[i]))
      && b.points == (if p.JArr? then p.elems else [])
      && b.title == AsText(form.title.value)
      && b.author == (if Truthy(form.author) then AsText(form.author.value) else JStr(DefaultAuthor))
      && b.category == (if Truthy(form.category) then AsText(form.category.value) else JStr(DefaultCategory))
      && b.content == b.description == AsText(form.description.value)
      && b.image == TitleImagePath(files)
  {
    if Truthy(form.author) {
      AsTextKeepsTruthy(form.author.value);
    }
    if Truthy(form.category) {
      AsTextKeepsTruthy(form.category.value);
    }
  }

  /** A form of strings, with keywords given as one comma-separated string,
      reads back exactly as normalised. */
  lemma StringFormReadsBack(form: BlogForm, files: UploadedFiles, parse: string -> Option<Json>,
                            id: int, createdAt: int)
    requires CreateBlog(form, files, parse).Insert?
    requires form.title.value.JStr? && form.description.value.JStr?
    requires Truthy(form.author) ==> form.author.value.JStr?
    requires Truthy(form.category) ==> form.category.value.JStr?
    requires form.keywords.None? || form.keywords.value.JStr?
    ensures var b := MapRow(InsertedRow(CreateBlog(form, files, parse).values, id, createdAt), parse);
      && b.tags == NormaliseKeywords(form.keywords)
      && b.title == form.title.value
      && b.author == (if Truthy(form.author) then form.author.value else JStr(DefaultAuthor))
      && b.category == (if Truthy(form.category) then form.category.value else JStr(DefaultCategory))
      && b.content == b.description == form.description.value
  {
    var b := MapRow(InsertedRow(CreateBlog(form, files, parse).values, id, createdAt), parse);
    var ks := NormaliseKeywords(form.keywords);
    CreatedBlogReadsBack(form, files, parse, id, createdAt);
    forall i | 0 <= i < |ks| ensures b.tags[i] == ks[i] {
      assert ks[i].JStr?;
    }
  }

  /** A JSON body with a numeric description, a boolean author and a
      numeric keyword gets them back as the strings "5", "true" and "1". */
  lemma NumberAndBooleanFieldsReadBackAsText(parse: string -> Option<Json>, id: int, createdAt: int)
    ensures var form := BlogForm(Some(JStr("T")), Some(JBool(true)), None,
                                 Some(JArr([JNum(1)])), Some(JNum(5)), None);
      var b := MapRow(InsertedRow(CreateBlog(form, UploadedFiles(None, None), parse).values,
                                  id, createdAt), parse);
      && b.description == JStr("5") && b.content == JStr("5")
      && b.author == JStr("true")
      && b.tags == [JStr("1")]
  {
    var form := BlogForm(Some(JStr("T")), Some(JBool(true)), None,
                         Some(JArr([JNum(1)])), Some(JNum(5)), None);
    CreatedBlogReadsBack(form, UploadedFiles(None, None), parse, id, createdAt);
    assert IntToDecimal(5) == "5" && IntToDecimal(1) == "1";
  }
}
