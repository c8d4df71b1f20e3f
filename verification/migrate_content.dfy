/** The migration generator of `scripts/migrate-content.js`: it turns the
    bilingual content document into SQL insert statements, one for the book,
    one per chapter heading and one per content item.

    A statement is kept as its table, its columns and its values; a string
    value holds exactly the characters written between its single quotes.
    Reading the document and writing the joined statements to a file are
    outside the model. */
module Migration {
  import opened Results

  /** One entry of the document's `content` array. The optional fields are
      `None` when the document leaves them out or sets them to null. */
  datatype Entry = Entry(
    id: string,
    original: string,
    translated: string,
    itemType: Option<string>,
    className: Option<string>,
    tagName: Option<string>,
    styles: Option<string>)

  /** The bilingual content document. */
  datatype Document = Document(title: string, originalTitle: string, author: string, styles: string, items: seq<Entry>)

  /** A value in a `VALUES` list: a quoted string literal (its characters
      between the quotes), an integer, or `NULL`. */
  datatype SqlValue = Quoted(text: string) | Number(n: int) | Null

  datatype Stmt = Insert(table: string, columns: seq<string>, values: seq<SqlValue>)

  const Quote: char := '\''

  // ---------------------------------------------------------------------
  // Quote escaping
  // ---------------------------------------------------------------------

  /** `s.replace(/'/g, "''")`: every single quote doubled. */
  function Escape(s: string): (r: string)
    ensures |r| >= |s|
    decreases |s|
  {
    if s == [] then []
    else if s[0] == Quote then [Quote, Quote] + Escape(s[1..])
    else [s[0]] + Escape(s[1..])
  }

  /** Every single quote in `t` belongs to an adjacent pair, read left to
      right: `t` can sit between the quotes of an SQL literal. */
  predicate Paired(t: string)
    decreases |t|
  {
    || t == []
    || (t[0] != Quote && Paired(t[1..]))
    || (|t| >= 2 && t[0] == Quote && t[1] == Quote && Paired(t[2..]))
  }

  /** Escaping leaves no quote unpaired: the result can sit between the
      quotes of an SQL literal. */
  lemma {:induction false} EscapePaired(s: string)
    ensures Paired(Escape(s))
    decreases |s|
  {
    if s != [] {
      EscapePaired(s[1..]);
      var e := Escape(s);
      if s[0] == Quote {
        assert e[2..] == Escape(s[1..]);
      } else {
        assert e[1..] == Escape(s[1..]);
      }
    }
  }

  /** What an SQL reader makes of the characters of a literal: each doubled
      quote stands for one quote. */
  function Unescape(t: string): (r: string)
    requires Paired(t)
    ensures |r| <= |t|
    decreases |t|
  {
    if t == [] then []
    else if t[0] == Quote then [Quote] + Unescape(t[2..])
    else [t[0]] + Unescape(t[1..])
  }

  /** Reading back an escaped string gives the string. */
  lemma {:induction false} UnescapeEscape(s: string)
    ensures Paired(Escape(s)) && Unescape(Escape(s)) == s
    decreases |s|
  {
    EscapePaired(s);
    if s != [] {
      UnescapeEscape(s[1..]);
      var e := Escape(s);
      if s[0] == Quote {
        assert e[2..] == Escape(s[1..]);
      } else {
        assert e[1..] == Escape(s[1..]);
      }
      assert s == [s[0]] + s[1..];
    }
  }

  /** Escaping is onto the paired strings: a paired string is the escaping
      of what it reads as. */
  lemma {:induction false} EscapeUnescape(t: string)
    requires Paired(t)
    ensures Escape(Unescape(t)) == t
    decreases |t|
  {
    if t != [] {
      var u := Unescape(t);
      if t[0] == Quote {
        EscapeUnescape(t[2..]);
        assert u[1..] == Unescape(t[2..]);
        assert t == [Quote, Quote] + t[2..];
      } else {
        EscapeUnescape(t[1..]);
        assert u[1..] == Unescape(t[1..]);
        assert t == [t[0]] + t[1..];
      }
    }
  }

  /** `.replace(/\n/g, ' ')`: every line feed turned into a space. */
  function NewlinesToSpaces(s: string): (r: string)
    ensures |r| == |s|
    ensures '\n' !in r
    ensures forall i :: 0 <= i < |s| && s[i] != '\n' ==> r[i] == s[i]
    decreases |s|
  {
    if s == [] then []
    else (if s[0] == '\n' then " " else [s[0]]) + NewlinesToSpaces(s[1..])
  }

  /** Line feeds are not quotes, so replacing them keeps quotes paired. */
  lemma {:induction false} NewlinesKeepPaired(t: string)
    requires Paired(t)
    ensures Paired(NewlinesToSpaces(t))
    decreases |t|
  {
    if t != [] {
      var n := NewlinesToSpaces(t);
      if t[0] == Quote {
        NewlinesKeepPaired(t[2..]);
        assert t[1..][1..] == t[2..];
        assert n[2..] == NewlinesToSpaces(t[2..]);
      } else {
        NewlinesKeepPaired(t[1..]);
        assert n[1..] == NewlinesToSpaces(t[1..]);
      }
    }
  }

  /** Replacing line feeds commutes with reading the literal. */
  lemma {:induction false} NewlinesUnescape(t: string)
    requires Paired(t)
    ensures Paired(NewlinesToSpaces(t))
    ensures Unescape(NewlinesToSpaces(t)) == NewlinesToSpaces(Unescape(t))
    decreases |t|
  {
    NewlinesKeepPaired(t);
    if t != [] {
      var n := NewlinesToSpaces(t);
      var u := Unescape(t);
      if t[0] == Quote {
        NewlinesUnescape(t[2..]);
        assert t[1..][1..] == t[2..];
        assert n[2..] == NewlinesToSpaces(t[2..]);
        assert u[1..] == Unescape(t[2..]);
      } else {
        NewlinesUnescape(t[1..]);
        assert n[1..] == NewlinesToSpaces(t[1..]);
        assert u[1..] == Unescape(t[1..]);
      }
    }
  }

  /** Replacing line feeds keeps quotes paired, and the literal then reads as
      the original styles with line feeds turned into spaces. */
  lemma StylesLiteral(s: string)
    ensures Paired(NewlinesToSpaces(Escape(s)))
    ensures Unescape(NewlinesToSpaces(Escape(s))) == NewlinesToSpaces(s)
  {
    UnescapeEscape(s);
    NewlinesUnescape(Escape(s));
  }

  // ---------------------------------------------------------------------
  // Statements
  // ---------------------------------------------------------------------

  predicate IsChapter(e: Entry) {
    e.itemType == Some("chapter")
  }

  /** An optional text column: the escaped literal, or `NULL` for an absent
      or empty field. */
  function OptionalLiteral(o: Option<string>): SqlValue {
    if Given(o) then Quoted(Escape(o.value)) else Null
  }

  /** The number of chapter entries among the first `k`. */
  function ChaptersBefore(items: seq<Entry>, k: nat): nat
    requires k <= |items|
  {
    if k == 0 then 0 else ChaptersBefore(items, k - 1) + (if IsChapter(items[k - 1]) then 1 else 0)
  }

  lemma {:induction false} ChaptersMonotone(items: seq<Entry>, j: nat, k: nat)
    requires j <= k <= |items|
    ensures ChaptersBefore(items, j) <= ChaptersBefore(items, k)
    ensures ChaptersBefore(items, k) - ChaptersBefore(items, j) <= k - j
    decreases k - j
  {
    if j < k {
      ChaptersMonotone(items, j, k - 1);
    }
  }

  /** The `chapter_id` of entry `k`: the number of the latest chapter at or
      before it, or `NULL` before the first chapter. */
  function ChapterIdAt(items: seq<Entry>, k: nat): SqlValue
    requires k < |items|
  {
    if ChaptersBefore(items, k + 1) == 0 then Null else Number(ChaptersBefore(items, k + 1))
  }

  /** No chapter has been counted exactly when none of the entries is one. */
  lemma {:induction false} NoChaptersYet(items: seq<Entry>, n: nat)
    requires n <= |items|
    ensures ChaptersBefore(items, n) == 0 <==> forall m :: 0 <= m < n ==> !IsChapter(items[m])
    decreases n
  {
    if n > 0 {
      NoChaptersYet(items, n - 1);
    }
  }

  /** `chapter_id` names the latest chapter heading at or before the entry:
      `NULL` exactly when there is none, and otherwise the number given to
      that heading's own chapter insert. */
  lemma {:induction false} ChapterIdIsLatest(items: seq<Entry>, k: nat)
    requires k < |items|
    ensures ChapterIdAt(items, k) == Null <==> forall m :: 0 <= m <= k ==> !IsChapter(items[m])
    ensures ChapterIdAt(items, k).Number? ==>
              exists m :: 0 <= m <= k && IsChapter(items[m])
                       && ChaptersBefore(items, m + 1) == ChapterIdAt(items, k).n
                       && forall q :: m < q <= k ==> !IsChapter(items[q])
    decreases k
  {
    NoChaptersYet(items, k + 1);
    if !IsChapter(items[k]) && k > 0 && ChaptersBefore(items, k) > 0 {
      ChapterIdIsLatest(items, k - 1);
      var m :| 0 <= m <= k - 1 && IsChapter(items[m])
               && ChaptersBefore(items, m + 1) == ChapterIdAt(items, k - 1).n
               && forall q :: m < q <= k - 1 ==> !IsChapter(items[q]);
      assert forall q :: m < q <= k ==> !IsChapter(items[q]);
    }
  }

  /** Where the insert of entry `k` lands: after the book insert, the `k`
      earlier entry inserts and the chapter inserts up to and including its
      own. */
  function Position(items: seq<Entry>, k: nat): nat
    requires k < |items|
  {
    1 + k + ChaptersBefore(items, k + 1)
  }

  function BookStmt(d: Document): Stmt {
    Insert("books", ["title", "original_title", "author", "language_pair", "styles"],
           [Quoted(Escape(d.title)), Quoted(Escape(d.originalTitle)), Quoted(Escape(d.author)),
            Quoted("en-zh"), Quoted(NewlinesToSpaces(Escape(d.styles)))])
  }

  function ChapterStmt(e: Entry, number: nat, orderIndex: nat): Stmt {
    Insert("chapters", ["book_id", "chapter_number", "title", "original_title", "order_index"],
           [Number(1), Number(number), Quoted(Escape(e.translated)), Quoted(Escape(e.original)),
            Number(orderIndex)])
  }

  /** The id and the type are written between quotes without escaping. */
  function ContentStmt(e: Entry, orderIndex: nat, chapterId: SqlValue): Stmt {
    Insert("content_items",
           ["book_id", "item_id", "original_text", "translated_text", "type", "class_name",
            "tag_name", "styles", "order_index", "chapter_id"],
           [Number(1), Quoted(e.id), Quoted(Escape(e.original)), Quoted(Escape(e.translated)),
            Quoted(if Given(e.itemType) then e.itemType.value else "paragraph"),
            OptionalLiteral(e.className), OptionalLiteral(e.tagName), OptionalLiteral(e.styles),
            Number(orderIndex), chapterId])
  }

  /** The statements entry `k` contributes: its chapter insert when it is a
      chapter heading, then its own insert. */
  function StmtsFor(items: seq<Entry>, k: nat): seq<Stmt>
    requires k < |items|
  {
    (if IsChapter(items[k]) then [ChapterStmt(items[k], ChaptersBefore(items, k + 1), k)] else [])
    + [ContentStmt(items[k], k, ChapterIdAt(items, k))]
  }

  /** The statements of the first `k` entries, in order. */
  function EntryStmts(items: seq<Entry>, k: nat): seq<Stmt>
    requires k <= |items|
  {
    if k == 0 then [] else EntryStmts(items, k - 1) + StmtsFor(items, k - 1)
  }

  /** Which insert a statement is: the chapter insert or the content insert
      of entry `k`. */
  datatype Mark = ChapterMark(k: nat) | ContentMark(k: nat)

  /** The inserts entry `k` contributes, in order. */
  function MarksFor(items: seq<Entry>, k: nat): seq<Mark>
    requires k < |items|
  {
    (if IsChapter(items[k]) then [ChapterMark(k)] else []) + [ContentMark(k)]
  }

  /** The inserts of the first `n` entries, in order. */
  function Marks(items: seq<Entry>, n: nat): (r: seq<Mark>)
    requires n <= |items|
    ensures forall p :: 0 <= p < |r| ==> r[p].k < n
  {
    if n == 0 then [] else Marks(items, n - 1) + MarksFor(items, n - 1)
  }

  /** The statement an insert stands for. */
  function Render(items: seq<Entry>, m: Mark): Stmt
    requires m.k < |items|
  {
    match m
    case ChapterMark(k) => ChapterStmt(items[k], ChaptersBefore(items, k + 1), k)
    case ContentMark(k) => ContentStmt(items[k], k, ChapterIdAt(items, k))
  }

  lemma StmtsForMarks(items: seq<Entry>, k: nat)
    requires k < |items|
    ensures |StmtsFor(items, k)| == |MarksFor(items, k)|
    ensures forall p :: 0 <= p < |MarksFor(items, k)| ==> StmtsFor(items, k)[p] == Render(items, MarksFor(items, k)[p])
  {
  }

  /** The statements of the first `n` entries are their inserts, rendered. */
  lemma {:induction false} EntryStmtsRender(items: seq<Entry>, n: nat)
    requires n <= |items|
    ensures |EntryStmts(items, n)| == |Marks(items, n)|
    ensures forall p :: 0 <= p < |Marks(items, n)| ==> EntryStmts(items, n)[p] == Render(items, Marks(items, n)[p])
    decreases n
  {
    if n > 0 {
      EntryStmtsRender(items, n - 1);
      StmtsForMarks(items, n - 1);
      var prev, last := EntryStmts(items, n - 1), StmtsFor(items, n - 1);
      var pm, lm := Marks(items, n - 1), MarksFor(items, n - 1);
      assert EntryStmts(items, n) == prev + last;
      assert Marks(items, n) == pm + lm;
      forall p | 0 <= p < |pm| + |lm| ensures (prev + last)[p] == Render(items, (pm + lm)[p]) {
        if p < |pm| {
          assert (prev + last)[p] == prev[p];
          assert (pm + lm)[p] == pm[p];
        } else {
          assert (prev + last)[p] == last[p - |pm|];
          assert (pm + lm)[p] == lm[p - |pm|];
        }
      }
    }
  }

  /** There is one insert per entry and one per chapter. */
  lemma {:induction false} MarksLength(items: seq<Entry>, n: nat)
    requires n <= |items|
    ensures |Marks(items, n)| == n + ChaptersBefore(items, n)
    decreases n
  {
    if n > 0 {
      MarksLength(items, n - 1);
    }
  }

  /** Later entries only append inserts: those of the first `j` entries
      stay where they are. */
  lemma {:induction false} MarksPrefix(items: seq<Entry>, j: nat, n: nat)
    requires j <= n <= |items|
    ensures |Marks(items, j)| <= |Marks(items, n)|
    ensures forall p :: 0 <= p < |Marks(items, j)| ==> Marks(items, n)[p] == Marks(items, j)[p]
    decreases n - j
  {
    if j < n {
      MarksPrefix(items, j, n - 1);
      assert Marks(items, n) == Marks(items, n - 1) + MarksFor(items, n - 1);
    }
  }

  /** Entry `k`'s insert sits at `Position - 1` among the inserts of the
      first `n` entries (the book insert is not counted here), and a
      chapter's insert right before it. */
  lemma MarkAt(items: seq<Entry>, n: nat, k: nat)
    requires k < n <= |items|
    ensures Position(items, k) - 1 < |Marks(items, n)| && Marks(items, n)[Position(items, k) - 1] == ContentMark(k)
    ensures IsChapter(items[k]) ==> Marks(items, n)[Position(items, k) - 2] == ChapterMark(k)
  {
    MarksLength(items, k + 1);
    MarksPrefix(items, k + 1, n);
    assert Marks(items, k + 1) == Marks(items, k) + MarksFor(items, k);
  }

  /** Where each insert sits among those of the first `n` entries. */
  lemma MarksLayout(items: seq<Entry>, n: nat)
    requires n <= |items|
    ensures |Marks(items, n)| == n + ChaptersBefore(items, n)
    ensures forall k :: 0 <= k < n ==>
              Position(items, k) - 1 < |Marks(items, n)| && Marks(items, n)[Position(items, k) - 1] == ContentMark(k)
    ensures forall k :: 0 <= k < n && IsChapter(items[k]) ==> Marks(items, n)[Position(items, k) - 2] == ChapterMark(k)
  {
    MarksLength(items, n);
    forall k | 0 <= k < n
      ensures Position(items, k) - 1 < |Marks(items, n)| && Marks(items, n)[Position(items, k) - 1] == ContentMark(k)
      ensures IsChapter(items[k]) ==> Marks(items, n)[Position(items, k) - 2] == ChapterMark(k)
    {
      MarkAt(items, n, k);
    }
  }

  /** Where each entry's statements sit among those of the first `n`
      entries: each entry's insert at `Position - 1` (the book insert is not
      counted here) and a chapter's insert right before it. */
  lemma EntryStmtsLayout(items: seq<Entry>, n: nat)
    requires n <= |items|
    ensures |EntryStmts(items, n)| == n + ChaptersBefore(items, n)
    ensures forall k :: 0 <= k < n ==>
              && Position(items, k) - 1 < |EntryStmts(items, n)|
              && EntryStmts(items, n)[Position(items, k) - 1] == ContentStmt(items[k], k, ChapterIdAt(items, k))
    ensures forall k :: 0 <= k < n && IsChapter(items[k]) ==>
              EntryStmts(items, n)[Position(items, k) - 2] == ChapterStmt(items[k], ChaptersBefore(items, k + 1), k)
  {
    MarksLayout(items, n);
    EntryStmtsRender(items, n);
  }

  /** `generateMigrationSQL`: the book insert first; then, for each entry in
      order, a chapter insert when it is a chapter heading, immediately
      followed by the entry's own insert. Chapters are numbered 1, 2, ...;
      `order_index` is the entry's position. */
  method GenerateMigration(d: Document) returns (stmts: seq<Stmt>)
    ensures stmts == [BookStmt(d)] + EntryStmts(d.items, |d.items|)
    ensures |stmts| == 1 + |d.items| + ChaptersBefore(d.items, |d.items|)
    ensures forall k :: 0 <= k < |d.items| ==>
              && Position(d.items, k) < |stmts|
              && stmts[Position(d.items, k)] == ContentStmt(d.items[k], k, ChapterIdAt(d.items, k))
    ensures forall k :: 0 <= k < |d.items| && IsChapter(d.items[k]) ==>
              stmts[Position(d.items, k) - 1] == ChapterStmt(d.items[k], ChaptersBefore(d.items, k + 1), k)
  {
    var items := d.items;
    stmts := [BookStmt(d)];
    var chapterNumber := 0;
    var chapterId: Option<nat> := None;
    var orderIndex := 0;
    while orderIndex < |items|
      invariant 0 <= orderIndex <= |items|
      invariant chapterNumber == ChaptersBefore(items, orderIndex)
      invariant chapterId == if chapterNumber == 0 then None else Some(chapterNumber)
      invariant stmts == [BookStmt(d)] + EntryStmts(items, orderIndex)
    {
      var item := items[orderIndex];
      var added: seq<Stmt> := [];
      if IsChapter(item) {
        chapterNumber := chapterNumber + 1;
        added := [ChapterStmt(item, chapterNumber, orderIndex)];
        chapterId := Some(chapterNumber);
      }
      var chapterValue := if chapterId.Some? then Number(chapterId.value) else Null;
      added := added + [ContentStmt(item, orderIndex, chapterValue)];
      assert added == StmtsFor(items, orderIndex);
      AppendAssoc([BookStmt(d)], EntryStmts(items, orderIndex), added);
      stmts := stmts + added;
      orderIndex := orderIndex + 1;
    }
    MigrationLayout(d);
  }

  lemma AppendAssoc<T>(a: seq<T>, b: seq<T>, c: seq<T>)
    ensures a + (b + c) == (a + b) + c
  {
  }

  /** The layout of the whole statement list, book insert included. */
  lemma MigrationLayout(d: Document)
    ensures var stmts := [BookStmt(d)] + EntryStmts(d.items, |d.items|);
            && |stmts| == 1 + |d.items| + ChaptersBefore(d.items, |d.items|)
            && (forall k :: 0 <= k < |d.items| ==>
                  && Position(d.items, k) < |stmts|
                  && stmts[Position(d.items, k)] == ContentStmt(d.items[k], k, ChapterIdAt(d.items, k)))
            && (forall k :: 0 <= k < |d.items| && IsChapter(d.items[k]) ==>
                  stmts[Position(d.items, k) - 1] == ChapterStmt(d.items[k], ChaptersBefore(d.items, k + 1), k))
  {
    var entries := EntryStmts(d.items, |d.items|);
    EntryStmtsLayout(d.items, |d.items|);
    var stmts := [BookStmt(d)] + entries;
    forall k | 0 <= k < |d.items| ensures stmts[Position(d.items, k)] == entries[Position(d.items, k) - 1] {
    }
  }
}
