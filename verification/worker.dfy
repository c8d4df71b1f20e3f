/** The API half of the request handler in `src/worker/index.ts`: path
    routing, the chapter-number argument, the database lookups over abstract
    tables, and the shaping of rows into response objects.

    The database is three tables of rows held in table order. A JavaScript
    object is a map from property names to values; a property it does not
    have reads as `undefined`. Serving the app's static assets and HTML
    pages, and building `Response` objects, are outside the model. */
module Worker {
  import opened Results
  import opened Text
  import Sorting

  // ---------------------------------------------------------------------
  // JavaScript values and objects
  // ---------------------------------------------------------------------

  datatype JsValue = JStr(s: string) | JNum(n: int) | JNull | JUndefined

  type Obj = map<string, JsValue>

  /** JavaScript truthiness: the empty string, 0, null and undefined are
      falsy. */
  predicate Truthy(v: JsValue) {
    match v
    case JStr(s) => s != ""
    case JNum(n) => n != 0
    case _ => false
  }

  /** `a || b`. */
  function Or(a: JsValue, b: JsValue): (r: JsValue)
    ensures Truthy(a) ==> r == a
    ensures !Truthy(a) ==> r == b
  {
    if Truthy(a) then a else b
  }

  /** `o.k`. */
  function Get(o: Obj, k: string): (v: JsValue)
    ensures k in o ==> v == o[k]
    ensures k !in o ==> v == JUndefined
  {
    if k in o then o[k] else JUndefined
  }

  // ---------------------------------------------------------------------
  // Tables
  // ---------------------------------------------------------------------

  datatype BookRow = BookRow(
    id: int, uuid: string, title: JsValue, originalTitle: JsValue, author: JsValue,
    languagePair: JsValue, styles: JsValue)

  datatype ChapterRow = ChapterRow(
    id: int, bookId: int, chapterNumber: int, title: JsValue, originalTitle: JsValue, orderIndex: int)

  datatype ContentRow = ContentRow(
    bookId: int, itemId: JsValue, originalText: JsValue, translatedText: JsValue, itemType: JsValue,
    className: JsValue, tagName: JsValue, styles: JsValue, orderIndex: int, chapterId: Option<int>)

  datatype Db = Db(books: seq<BookRow>, chapters: seq<ChapterRow>, items: seq<ContentRow>)

  /** A content row as the object `SELECT ci.*` yields, keyed by column. */
  function RowObject(r: ContentRow): Obj {
    map[
      "book_id" := JNum(r.bookId), "item_id" := r.itemId, "original_text" := r.originalText,
      "translated_text" := r.translatedText, "type" := r.itemType, "class_name" := r.className,
      "tag_name" := r.tagName, "styles" := r.styles, "order_index" := JNum(r.orderIndex),
      "chapter_id" := if r.chapterId.Some? then JNum(r.chapterId.value) else JNull]
  }

  /** The rows of `s` that satisfy `p`, in their order: each kept row as
      often as it occurs in `s`. */
  function Filter<T(!new)>(s: seq<T>, p: T -> bool): (r: seq<T>)
    ensures |r| <= |s|
    ensures forall x :: multiset(r)[x] == if p(x) then multiset(s)[x] else 0
    ensures forall x :: x in r <==> x in s && p(x)
  {
    if s == [] then []
    else
      assert s == [s[0]] + s[1..];
      (if p(s[0]) then [s[0]] else []) + Filter(s[1..], p)
  }

  predicate SortedByKey<T>(s: seq<T>, key: T -> int) {
    forall i, j :: 0 <= i < j < |s| ==> key(s[i]) <= key(s[j])
  }

  /** `ORDER BY key ASC`: the same rows, ascending by key. */
  function SortByKey<T(!new)>(s: seq<T>, key: T -> int): (r: seq<T>)
    ensures SortedByKey(r, key)
    ensures multiset(r) == multiset(s)
  {
    var le := (a: T, b: T) => key(a) <= key(b);
    assert Sorting.Total(le) && Sorting.Transitive(le);
    var r := Sorting.Sort(s, le);
    assert forall i, j :: 0 <= i < j < |r| ==> le(r[i], r[j]);
    r
  }

  /** `.first()` of `SELECT * FROM books WHERE uuid = ?`: the first book
      with that uuid. */
  function FindBook(books: seq<BookRow>, uuid: string): (r: Option<BookRow>)
    ensures r.Some? ==> r.value in books && r.value.uuid == uuid
    ensures r.None? <==> forall k :: 0 <= k < |books| ==> books[k].uuid != uuid
  {
    if books == [] then None
    else if books[0].uuid == uuid then Some(books[0])
    else FindBook(books[1..], uuid)
  }

  /** `.first()` of the chapter with this book and number; a number that is
      `NaN` matches no chapter. */
  function FindChapter(chapters: seq<ChapterRow>, bookId: int, number: Option<int>): (r: Option<ChapterRow>)
    ensures r.Some? ==> r.value in chapters && r.value.bookId == bookId && Some(r.value.chapterNumber) == number
    ensures r.None? <==>
              forall k :: 0 <= k < |chapters| ==> !(chapters[k].bookId == bookId && Some(chapters[k].chapterNumber) == number)
  {
    if chapters == [] then None
    else if chapters[0].bookId == bookId && Some(chapters[0].chapterNumber) == number then Some(chapters[0])
    else FindChapter(chapters[1..], bookId, number)
  }

  function ItemOrder(r: ContentRow): int {
    r.orderIndex
  }

  function ChapterOrder(c: ChapterRow): int {
    c.orderIndex
  }

  /** The content rows of a book, ascending by `order_index`. */
  function BookItems(db: Db, bookId: int): (r: seq<ContentRow>)
    ensures SortedByKey(r, ItemOrder)
    ensures forall x :: multiset(r)[x] == if x.bookId == bookId then multiset(db.items)[x] else 0
    ensures forall x :: x in r <==> x in db.items && x.bookId == bookId
  {
    var rows := Filter(db.items, (x: ContentRow) => x.bookId == bookId);
    var r := SortByKey(rows, ItemOrder);
    assert forall x :: x in r <==> x in multiset(rows);
    r
  }

  /** The content rows of one chapter of a book, ascending by
      `order_index`. */
  function ChapterItems(db: Db, bookId: int, chapterId: int): (r: seq<ContentRow>)
    ensures SortedByKey(r, ItemOrder)
    ensures forall x :: multiset(r)[x] ==
              if x.bookId == bookId && x.chapterId == Some(chapterId) then multiset(db.items)[x] else 0
    ensures forall x :: x in r <==> x in db.items && x.bookId == bookId && x.chapterId == Some(chapterId)
  {
    var keep := (x: ContentRow) => x.bookId == bookId && x.chapterId == Some(chapterId);
    var rows := Filter(db.items, keep);
    var r := SortByKey(rows, ItemOrder);
    forall x ensures x in r <==> x in db.items && x.bookId == bookId && x.chapterId == Some(chapterId) {
      assert x in r <==> x in multiset(r);
      assert x in rows <==> x in multiset(rows);
      assert x in rows <==> x in db.items && keep(x);
    }
    r
  }

  /** The chapters of a book, ascending by `order_index`. */
  function BookChapterRows(db: Db, bookId: int): (r: seq<ChapterRow>)
    ensures SortedByKey(r, ChapterOrder)
    ensures forall x :: multiset(r)[x] == if x.bookId == bookId then multiset(db.chapters)[x] else 0
    ensures forall x :: x in r <==> x in db.chapters && x.bookId == bookId
  {
    var rows := Filter(db.chapters, (x: ChapterRow) => x.bookId == bookId);
    var r := SortByKey(rows, ChapterOrder);
    assert forall x :: x in r <==> x in multiset(rows);
    r
  }

  // ---------------------------------------------------------------------
  // Queries
  // ---------------------------------------------------------------------

  const BookNotFound: string := "Book not found"
  const ChapterNotFound: string := "Chapter not found"

  /** The chapter information a chapter page carries. */
  datatype ChapterInfo = ChapterInfo(number: int, title: JsValue, originalTitle: JsValue)

  /** What `getChapterContent` returns. */
  datatype ChapterData = ChapterData(book: BookRow, chapter: ChapterInfo, content: seq<Obj>)

  /** `getBookWithContent`: the book and its content rows in order. */
  function GetBookWithContent(db: Db, uuid: string): (r: Result<(BookRow, seq<ContentRow>)>)
    ensures r.Failure? <==> FindBook(db.books, uuid).None?
    ensures r.Failure? ==> r.message == BookNotFound
    ensures r.Success? ==> r.value.0 == FindBook(db.books, uuid).value && r.value.1 == BookItems(db, r.value.0.id)
  {
    match FindBook(db.books, uuid)
    case None => Failure(BookNotFound)
    case Some(book) => Success((book, BookItems(db, book.id)))
  }

  /** `getBookChapters`. */
  function GetBookChapters(db: Db, uuid: string): (r: Result<seq<ChapterRow>>)
    ensures r.Failure? <==> FindBook(db.books, uuid).None?
    ensures r.Failure? ==> r.message == BookNotFound
    ensures r.Success? ==> r.value == BookChapterRows(db, FindBook(db.books, uuid).value.id)
  {
    match FindBook(db.books, uuid)
    case None => Failure(BookNotFound)
    case Some(book) => Success(BookChapterRows(db, book.id))
  }

  const TitlePageKeys: set<string> :=
    {"id", "original", "translated", "type", "className", "tagName", "styles", "order_index"}

  /** The two entries of the synthesized title page: the title (original
      title, else title, else 'Title' on the original side; title, else
      'Title', on the translated side) and the author, else 'Unknown
      Author', on both sides. They already have the response's field
      names. */
  function TitlePageItems(book: BookRow): (r: seq<Obj>)
    ensures |r| == 2
    ensures forall k :: 0 <= k < 2 ==> r[k].Keys == TitlePageKeys
    ensures Get(r[0], "id") == JStr("title-0") && Get(r[1], "id") == JStr("author-0")
    ensures Get(r[0], "order_index") == JNum(0) && Get(r[1], "order_index") == JNum(1)
    ensures Get(r[0], "original") == Or(Or(book.originalTitle, book.title), JStr("Title"))
    ensures Get(r[0], "translated") == Or(book.title, JStr("Title"))
    ensures Get(r[1], "original") == Or(book.author, JStr("Unknown Author"))
    ensures Get(r[1], "translated") == Or(book.author, JStr("Unknown Author"))
    ensures Get(r[0], "type") == JStr("title") && Get(r[1], "type") == JStr("paragraph")
    ensures Get(r[0], "tagName") == JStr("h1") && Get(r[1], "tagName") == JStr("p")
    ensures forall k :: 0 <= k < 2 ==> Get(r[k], "className") == JNull && Get(r[k], "styles") == JNull
  {
    var author := Or(book.author, JStr("Unknown Author"));
    [ map[
        "id" := JStr("title-0"),
        "original" := Or(Or(book.originalTitle, book.title), JStr("Title")),
        "translated" := Or(book.title, JStr("Title")),
        "type" := JStr("title"), "className" := JNull, "tagName" := JStr("h1"), "styles" := JNull,
        "order_index" := JNum(0)],
      map[
        "id" := JStr("author-0"), "original" := author, "translated" := author,
        "type" := JStr("paragraph"), "className" := JNull, "tagName" := JStr("p"), "styles" := JNull,
        "order_index" := JNum(1)] ]
  }

  /** `getChapterContent`: chapter 0 is a synthesized title page that needs
      no chapter row; any other number needs the book's chapter with that
      number, whose content rows come in `order_index` order. */
  function GetChapterContent(db: Db, number: Option<int>, uuid: string): (r: Result<ChapterData>)
    ensures FindBook(db.books, uuid).None? ==> r == Failure(BookNotFound)
    ensures FindBook(db.books, uuid).Some? && number == Some(0) ==>
              var book := FindBook(db.books, uuid).value;
              r == Success(ChapterData(book, ChapterInfo(0, book.title, Or(book.originalTitle, book.title)),
                                       TitlePageItems(book)))
    ensures FindBook(db.books, uuid).Some? && number != Some(0) ==>
              var book := FindBook(db.books, uuid).value;
              var chapter := FindChapter(db.chapters, book.id, number);
              && (chapter.None? <==> r.Failure?)
              && (chapter.None? ==> r == Failure(ChapterNotFound))
              && (chapter.Some? ==>
                    && r.value.book == book
                    && r.value.chapter == ChapterInfo(chapter.value.chapterNumber, chapter.value.title, chapter.value.originalTitle)
                    && |r.value.content| == |ChapterItems(db, book.id, chapter.value.id)|
                    && forall k :: 0 <= k < |r.value.content| ==>
                         r.value.content[k] == RowObject(ChapterItems(db, book.id, chapter.value.id)[k]))
  {
    match FindBook(db.books, uuid)
    case None => Failure(BookNotFound)
    case Some(book) =>
      if number == Some(0) then
        Success(ChapterData(book, ChapterInfo(0, book.title, Or(book.originalTitle, book.title)), TitlePageItems(book)))
      else
        match FindChapter(db.chapters, book.id, number)
        case None => Failure(ChapterNotFound)
        case Some(chapter) =>
          var rows := ChapterItems(db, book.id, chapter.id);
          Success(ChapterData(book, ChapterInfo(chapter.chapterNumber, chapter.title, chapter.originalTitle),
                              seq(|rows|, k requires 0 <= k < |rows| => RowObject(rows[k]))))
  }

  // ---------------------------------------------------------------------
  // Response shaping
  // ---------------------------------------------------------------------

  /** The `.map((item) => ({ id: item.item_id, ... }))` of the content
      endpoints: column names renamed to the client's field names. */
  function ShapeItem(o: Obj): (r: Obj)
    ensures r.Keys == {"id", "original", "translated", "type", "className", "tagName", "styles"}
  {
    map[
      "id" := Get(o, "item_id"), "original" := Get(o, "original_text"),
      "translated" := Get(o, "translated_text"), "type" := Get(o, "type"),
      "className" := Get(o, "class_name"), "tagName" := Get(o, "tag_name"),
      "styles" := Get(o, "styles")]
  }

  function ShapeItems(objs: seq<Obj>): (r: seq<Obj>)
    ensures |r| == |objs|
    ensures forall k :: 0 <= k < |objs| ==> r[k] == ShapeItem(objs[k])
  {
    seq(|objs|, k requires 0 <= k < |objs| => ShapeItem(objs[k]))
  }

  /** A database row reaches the client with each column under its new
      name. */
  lemma ShapeRow(r: ContentRow)
    ensures ShapeItem(RowObject(r)) == map[
              "id" := r.itemId, "original" := r.originalText, "translated" := r.translatedText,
              "type" := r.itemType, "className" := r.className, "tagName" := r.tagName,
              "styles" := r.styles]
  {
  }

  datatype Reply =
    | BookList(books: seq<BookRow>)
    | BookContent(uuid: string, title: JsValue, originalTitle: JsValue, author: JsValue, styles: JsValue,
                  content: seq<Obj>)
    | ChapterList(chapters: seq<ChapterRow>)
    | ChapterPage(uuid: string, title: JsValue, originalTitle: JsValue, author: JsValue, styles: JsValue,
                  currentChapter: Option<int>, chapterInfo: ChapterInfo, content: seq<Obj>)
    | Error(status: nat, text: string)

  function Status(r: Reply): nat {
    if r.Error? then r.status else 200
  }

  /** The response to the content endpoint: the book's fields, and each
      content row, in order, with its columns under the client's names. */
  function ContentReply(book: BookRow, rows: seq<ContentRow>): (r: Reply)
    ensures r.BookContent? && r.uuid == book.uuid && r.title == book.title
    ensures r.originalTitle == book.originalTitle && r.author == book.author && r.styles == book.styles
    ensures |r.content| == |rows|
    ensures forall k :: 0 <= k < |rows| ==> r.content[k] == map[
              "id" := rows[k].itemId, "original" := rows[k].originalText,
              "translated" := rows[k].translatedText, "type" := rows[k].itemType,
              "className" := rows[k].className, "tagName" := rows[k].tagName,
              "styles" := rows[k].styles]
  {
    var objs := seq(|rows|, k requires 0 <= k < |rows| => RowObject(rows[k]));
    forall k | 0 <= k < |rows| {
      ShapeRow(rows[k]);
    }
    BookContent(book.uuid, book.title, book.originalTitle, book.author, book.styles, ShapeItems(objs))
  }

  /** The chapter page exactly as `fetch` builds it: every entry of the
      content, the synthesized title page included, goes through the row
      renaming. */
  function ChapterReplyAsWritten(data: ChapterData, number: Option<int>): Reply {
    ChapterPage(data.book.uuid, data.book.title, data.book.originalTitle, data.book.author, data.book.styles,
                number, data.chapter, ShapeItems(data.content))
  }

  /** Renaming the title page's entries loses their id, both texts, their
      class and their tag: they have no `item_id`, `original_text`,
      `translated_text`, `class_name` or `tag_name` to rename. */
  lemma TitleReplyLosesFields(db: Db, uuid: string)
    requires FindBook(db.books, uuid).Some?
    ensures var data := GetChapterContent(db, Some(0), uuid).value;
            var page := ChapterReplyAsWritten(data, Some(0));
            && |page.content| == 2
            && forall k :: 0 <= k < 2 ==>
                 && page.content[k]["id"] == JUndefined
                 && page.content[k]["original"] == JUndefined
                 && page.content[k]["translated"] == JUndefined
                 && page.content[k]["className"] == JUndefined
                 && page.content[k]["tagName"] == JUndefined
  {
    var data := GetChapterContent(db, Some(0), uuid).value;
    var items := data.content;
    assert items == TitlePageItems(data.book);
    var page := ChapterReplyAsWritten(data, Some(0));
    assert page.content == ShapeItems(items);
    forall k | 0 <= k < 2
      ensures && page.content[k]["id"] == JUndefined
              && page.content[k]["original"] == JUndefined
              && page.content[k]["translated"] == JUndefined
              && page.content[k]["className"] == JUndefined
              && page.content[k]["tagName"] == JUndefined
    {
      TitleEntryLoses(items[k]);
    }
  }

  /** An entry with the title page's keys has none of the columns the
      renaming reads for these five fields. */
  lemma TitleEntryLoses(o: Obj)
    requires o.Keys == TitlePageKeys
    ensures && ShapeItem(o)["id"] == JUndefined
            && ShapeItem(o)["original"] == JUndefined
            && ShapeItem(o)["translated"] == JUndefined
            && ShapeItem(o)["className"] == JUndefined
            && ShapeItem(o)["tagName"] == JUndefined
  {
    assert "item_id" !in TitlePageKeys && "original_text" !in TitlePageKeys;
    assert "translated_text" !in TitlePageKeys && "class_name" !in TitlePageKeys;
    assert "tag_name" !in TitlePageKeys;
  }

  /** The chapter page with the title page delivered as synthesized: only
      database rows are renamed. */
  function ChapterReply(data: ChapterData, number: Option<int>): (r: Reply)
    ensures r.ChapterPage? && r.chapterInfo == data.chapter && r.currentChapter == number
    ensures number == Some(0) ==> r.content == data.content
    ensures number != Some(0) ==> r.content == ShapeItems(data.content)
  {
    var content := if number == Some(0) then data.content else ShapeItems(data.content);
    ChapterPage(data.book.uuid, data.book.title, data.book.originalTitle, data.book.author, data.book.styles,
                number, data.chapter, content)
  }

  // ---------------------------------------------------------------------
  // Routing
  // ---------------------------------------------------------------------

  const ApiPrefix: string := "/api/"
  const BooksPath: string := "/api/books"
  const BookPrefix: string := "/api/book/"
  const ChapterPrefix: string := "chapter/"

  /** The characters `.` does not match in a JavaScript regular
      expression. */
  predicate IsLineTerminator(c: char) {
    c == '\n' || c == '\r' || c == '\U{2028}' || c == '\U{2029}'
  }

  predicate NoLineTerminator(s: string) {
    forall i :: 0 <= i < |s| ==> !IsLineTerminator(s[i])
  }

  /** `/^\/api\/book\/([^\/]+)\/(.+)$/`: the uuid is the non-empty text up to
      the first slash after the prefix, and the endpoint is the non-empty
      rest, free of line terminators. */
  function MatchBookPath(path: string): (r: Option<(string, string)>)
    ensures r.Some? ==>
              && path == BookPrefix + r.value.0 + "/" + r.value.1
              && r.value.0 != "" && '/' !in r.value.0
              && r.value.1 != "" && NoLineTerminator(r.value.1)
  {
    if !StartsWith(path, BookPrefix) then None
    else
      var rest := path[|BookPrefix|..];
      if '/' !in rest then None
      else
        var i := IndexOf(rest, '/');
        var uuid, endpoint := rest[..i], rest[i + 1..];
        if uuid == "" || endpoint == "" || !NoLineTerminator(endpoint) then None
        else
          assert rest == uuid + "/" + endpoint;
          assert path == BookPrefix + rest;
          Some((uuid, endpoint))
  }

  /** Every path of the matched form is matched, with its own parts. */
  lemma MatchBookPathComplete(uuid: string, endpoint: string)
    requires uuid != "" && '/' !in uuid && endpoint != "" && NoLineTerminator(endpoint)
    ensures MatchBookPath(BookPrefix + uuid + "/" + endpoint) == Some((uuid, endpoint))
  {
    var path := BookPrefix + uuid + "/" + endpoint;
    assert StartsWith(path, BookPrefix);
    var rest := path[|BookPrefix|..];
    assert rest == uuid + "/" + endpoint;
    assert rest[..|uuid|] == uuid;
    IndexOfUnique(rest, '/', |uuid|);
    assert rest[|uuid| + 1..] == endpoint;
  }

  // `parseInt`

  predicate IsHexDigit(c: char) {
    IsDigit(c) || ('a' <= c <= 'f') || ('A' <= c <= 'F')
  }

  function HexDigitValue(c: char): nat
    requires IsHexDigit(c)
  {
    if IsDigit(c) then DigitValue(c) else if 'a' <= c <= 'f' then c as int - 97 + 10 else c as int - 65 + 10
  }

  /** The longest prefix of `s` whose characters satisfy `ok`. */
  function Span(s: string, ok: char -> bool): (r: string)
    ensures |r| <= |s| && r == s[..|r|]
    ensures forall i :: 0 <= i < |r| ==> ok(r[i])
    ensures |r| < |s| ==> !ok(s[|r|])
  {
    if s != [] && ok(s[0]) then
      var t := Span(s[1..], ok);
      assert [s[0]] + t == s[..|t| + 1];
      [s[0]] + t
    else []
  }

  function HexNumber(s: string): nat
    requires forall i :: 0 <= i < |s| ==> IsHexDigit(s[i])
  {
    if s == [] then 0 else HexNumber(s[..|s| - 1]) * 16 + HexDigitValue(s[|s| - 1])
  }

  /** JavaScript `parseInt(s)` with no radix; `None` stands for `NaN`.
      Leading white space is skipped, one sign is read, a `0x`/`0X` prefix
      selects hexadecimal, and the longest run of digits that follows is
      converted. */
  function ParseInt(s: string): (r: Option<int>)
  {
    var t := TrimStart(s);
    var negative := t != [] && t[0] == '-';
    var u := if t != [] && (t[0] == '-' || t[0] == '+') then t[1..] else t;
    if |u| >= 2 && u[0] == '0' && (u[1] == 'x' || u[1] == 'X') then
      var h := Span(u[2..], IsHexDigit);
      var v: int := HexNumber(h);
      if h == [] then None else Some(if negative then -v else v)
    else
      var d := Span(u, IsDigit);
      var v: int := DecimalValue(d);
      if d == [] then None else Some(if negative then -v else v)
  }

  /** `parseInt` reads back the decimal rendering of every natural number. */
  lemma ParseIntDecimal(n: nat)
    ensures ParseInt(NatToString(n)) == Some(n)
  {
    var s := NatToString(n);
    assert IsDigit(s[0]) && !IsSpace(s[0]);
    assert TrimStart(s) == s;
    assert s[0] != '-' && s[0] != '+';
    assert !(|s| >= 2 && s[0] == '0');
    var d := Span(s, IsDigit);
    assert |d| == |s|;
    assert d == s;
    DecimalRoundTrip(n);
  }

  /** A text with no leading digit, sign or white space is `NaN`. */
  lemma ParseIntNaN(s: string)
    requires s != [] && !IsSpace(s[0]) && !IsDigit(s[0]) && s[0] != '-' && s[0] != '+'
    ensures ParseInt(s).None?
  {
    assert TrimStart(s) == s;
  }

  /** The chapter number of a `chapter/...` endpoint: `parseInt` of the
      second slash-separated segment, or of '1' when that segment is
      empty. */
  function ChapterNumber(endpoint: string): Option<int> {
    var parts := Split(endpoint, '/');
    ParseInt(if |parts| > 1 && parts[1] != "" then parts[1] else "1")
  }

  /** `chapter/<n>` selects chapter `n`. */
  lemma ChapterNumberOf(n: nat)
    ensures ChapterNumber(ChapterPrefix + NatToString(n)) == Some(n)
  {
    var digits := NatToString(n);
    assert '/' !in digits by {
      forall i | 0 <= i < |digits| ensures digits[i] != '/' {
        assert IsDigit(digits[i]);
      }
    }
    ChapterSegments(digits);
    ParseIntDecimal(n);
  }

  /** A bare `chapter/` selects chapter 1. */
  lemma ChapterNumberDefault()
    ensures ChapterNumber(ChapterPrefix) == Some(1)
  {
    ChapterSegments("");
    assert ChapterPrefix + "" == ChapterPrefix;
    ParseIntDecimal(1);
    assert NatToString(1) == "1";
  }

  lemma ChapterSegments(rest: string)
    requires '/' !in rest
    ensures Split(ChapterPrefix + rest, '/') == ["chapter", rest]
  {
    var head := "chapter";
    assert '/' !in head;
    assert Split(head, '/') == [head];
    assert Split(rest, '/') == [rest];
    assert ChapterPrefix == head + ['/'];
    SplitAppend(head, rest, '/');
  }

  datatype Route =
    | NotApi
    | ListBooks
    | GetContent(uuid: string)
    | GetChapters(uuid: string)
    | GetChapter(uuid: string, number: Option<int>)
    | Unmatched

  /** Which branch of `fetch` a path takes. */
  function ParseRoute(path: string): (r: Route)
    ensures r == NotApi <==> !StartsWith(path, ApiPrefix)
    ensures r == ListBooks <==> path == BooksPath
    ensures (r.GetContent? || r.GetChapters? || r.GetChapter?) ==>
              MatchBookPath(path).Some? && MatchBookPath(path).value.0 == r.uuid
    ensures r.GetContent? <==> path != BooksPath && MatchBookPath(path).Some? && MatchBookPath(path).value.1 == "content"
    ensures r.GetChapters? <==> path != BooksPath && MatchBookPath(path).Some? && MatchBookPath(path).value.1 == "chapters"
    ensures r.GetChapter? <==>
              path != BooksPath && MatchBookPath(path).Some? && StartsWith(MatchBookPath(path).value.1, ChapterPrefix)
    ensures r.GetChapter? ==> r.number == ChapterNumber(MatchBookPath(path).value.1)
  {
    if !StartsWith(path, ApiPrefix) then NotApi
    else if path == BooksPath then ListBooks
    else
      match MatchBookPath(path)
      case None => Unmatched
      case Some((uuid, endpoint)) =>
        assert StartsWith(path, BookPrefix);
        assert !StartsWith("chapters", ChapterPrefix) by { assert "chapters"[7] != ChapterPrefix[7]; }
        if endpoint == "content" then GetContent(uuid)
        else if endpoint == "chapters" then GetChapters(uuid)
        else if StartsWith(endpoint, ChapterPrefix) then GetChapter(uuid, ChapterNumber(endpoint))
        else Unmatched
  }

  /** The API part of `fetch`: `None` for paths outside `/api/`, which the
      other branches serve. A thrown lookup error becomes 500 and a path no
      branch takes becomes 404. */
  function HandleApi(path: string, db: Db): (r: Option<Reply>)
    ensures r.None? <==> ParseRoute(path) == NotApi
    ensures ParseRoute(path) == ListBooks ==> r == Some(BookList(db.books))
    ensures ParseRoute(path) == Unmatched ==> r == Some(Error(404, "API endpoint not found"))
    ensures ParseRoute(path).GetContent? ==>
              var uuid := ParseRoute(path).uuid;
              r == Some(if FindBook(db.books, uuid).None? then Error(500, "Internal Server Error")
                        else ContentReply(FindBook(db.books, uuid).value, BookItems(db, FindBook(db.books, uuid).value.id)))
    ensures ParseRoute(path).GetChapters? ==>
              var uuid := ParseRoute(path).uuid;
              r == Some(if FindBook(db.books, uuid).None? then Error(500, "Internal Server Error")
                        else ChapterList(BookChapterRows(db, FindBook(db.books, uuid).value.id)))
    ensures ParseRoute(path).GetChapter? ==>
              var data := GetChapterContent(db, ParseRoute(path).number, ParseRoute(path).uuid);
              r == Some(if data.Failure? then Error(500, "Internal Server Error")
                        else ChapterReplyAsWritten(data.value, ParseRoute(path).number))
  {
    match ParseRoute(path)
    case NotApi => None
    case ListBooks => Some(BookList(db.books))
    case Unmatched => Some(Error(404, "API endpoint not found"))
    case GetContent(uuid) =>
      Some(match GetBookWithContent(db, uuid)
           case Failure(_) => Error(500, "Internal Server Error")
           case Success((book, rows)) => ContentReply(book, rows))
    case GetChapters(uuid) =>
      Some(match GetBookChapters(db, uuid)
           case Failure(_) => Error(500, "Internal Server Error")
           case Success(chapters) => ChapterList(chapters))
    case GetChapter(uuid, number) =>
      Some(match GetChapterContent(db, number, uuid)
           case Failure(_) => Error(500, "Internal Server Error")
           case Success(data) => ChapterReplyAsWritten(data, number))
  }

  /** `fetch` with the chapter reply corrected: the synthesized title page
      is delivered as built. Every other path, and every chapter other than
      the title page, gets the same reply as before. */
  function HandleApiIntended(path: string, db: Db): (r: Option<Reply>)
    ensures !ParseRoute(path).GetChapter? ==> r == HandleApi(path, db)
    ensures ParseRoute(path).GetChapter? && ParseRoute(path).number != Some(0) ==> r == HandleApi(path, db)
    ensures ParseRoute(path).GetChapter? ==>
              var data := GetChapterContent(db, ParseRoute(path).number, ParseRoute(path).uuid);
              r == Some(if data.Failure? then Error(500, "Internal Server Error")
                        else ChapterReply(data.value, ParseRoute(path).number))
  {
    match ParseRoute(path)
    case GetChapter(uuid, number) =>
      Some(match GetChapterContent(db, number, uuid)
           case Failure(_) => Error(500, "Internal Server Error")
           case Success(data) => ChapterReply(data, number))
    case _ => HandleApi(path, db)
  }

  /** The status of an API reply: 404 exactly for paths no branch takes, 500
      exactly when a lookup throws (a missing book, or a missing chapter
      other than the title page), 200 otherwise. */
  lemma ApiStatus(path: string, db: Db)
    requires StartsWith(path, ApiPrefix)
    ensures Status(HandleApi(path, db).value) == 404 <==> ParseRoute(path) == Unmatched
    ensures Status(HandleApi(path, db).value) == 500 <==>
              match ParseRoute(path)
              case GetContent(uuid) => FindBook(db.books, uuid).None?
              case GetChapters(uuid) => FindBook(db.books, uuid).None?
              case GetChapter(uuid, number) =>
                FindBook(db.books, uuid).None? ||
                (number != Some(0) && FindChapter(db.chapters, FindBook(db.books, uuid).value.id, number).None?)
              case _ => false
  {
  }

  /** `/api/book/<uuid>/chapter/0` takes the chapter branch with number 0. */
  lemma TitlePageRoute(uuid: string)
    requires '/' !in uuid && uuid != ""
    ensures ParseRoute(BookPrefix + uuid + "/" + ChapterPrefix + "0") == GetChapter(uuid, Some(0))
  {
    var endpoint := ChapterPrefix + "0";
    assert NoLineTerminator(endpoint);
    MatchBookPathComplete(uuid, endpoint);
    assert BookPrefix + uuid + "/" + ChapterPrefix + "0" == BookPrefix + uuid + "/" + endpoint;
    assert StartsWith(endpoint, ChapterPrefix);
    ChapterNumberOf(0);
    assert NatToString(0) == "0";
    assert endpoint == ChapterPrefix + NatToString(0);
  }

  /** As written, `/api/book/<uuid>/chapter/0` sends the title page's two
      entries with `undefined` id, original, translated, className and
      tagName. */
  lemma TitlePageLosesFields(db: Db, uuid: string)
    requires FindBook(db.books, uuid).Some?
    ensures var r := HandleApi(BookPrefix + uuid + "/" + ChapterPrefix + "0", db);
            '/' !in uuid && uuid != "" ==>
              && r.Some? && r.value.ChapterPage? && |r.value.content| == 2
              && forall k :: 0 <= k < 2 ==>
                   && r.value.content[k]["id"] == JUndefined
                   && r.value.content[k]["original"] == JUndefined
                   && r.value.content[k]["translated"] == JUndefined
                   && r.value.content[k]["className"] == JUndefined
                   && r.value.content[k]["tagName"] == JUndefined
  {
    if '/' !in uuid && uuid != "" {
      TitlePageRoute(uuid);
      TitleReplyLosesFields(db, uuid);
    }
  }

  /** With the corrected reply the title page reaches the client as
      synthesized: two entries with ids `title-0` and `author-0`, without a
      chapter row. */
  lemma TitlePageDelivered(db: Db, uuid: string)
    requires FindBook(db.books, uuid).Some?
    ensures var r := HandleApiIntended(BookPrefix + uuid + "/" + ChapterPrefix + "0", db);
            '/' !in uuid && uuid != "" ==>
              && r.Some? && r.value.ChapterPage?
              && r.value.content == TitlePageItems(FindBook(db.books, uuid).value)
              && r.value.chapterInfo.number == 0
  {
    if '/' !in uuid && uuid != "" {
      TitlePageRoute(uuid);
    }
  }
}
