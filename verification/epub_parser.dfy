/** The EPUB structure extractor of `src/utils/epubParser.ts`.

    Decompression and markup tokenizing are outside the model: an archive is
    its entry names (in the key order of the unzipped file table) and a map
    from each name to the entry's text, and a markup parser is a function
    parameter that turns text into a tree of nodes, reports that it produced
    no document, or throws. */
module EpubParser {
  import opened Results
  import opened Text
  import Lexical

  /** A DOM node: an element with its tag name and children, a text node, or
      any other non-element node (a comment, a processing instruction). */
  datatype Node =
    | Element(tag: string, children: seq<Node>)
    | TextNode(data: string)
    | OtherNode(data: string)

  /** What `DOMParser.parseFromString` gives: the document's top-level
      nodes, a null document, or an exception. */
  datatype Parsed = Parsed(doc: seq<Node>) | NoDocument | ParseError

  /** The semantic type of a content item. The extractor only ever produces
      `Chapter` (for headings) and `Paragraph`; `Title` is the title-page type
      of the reader. */
  datatype Kind = Title | Chapter | Paragraph

  /** One entry extracted from a page. */
  datatype Piece = Piece(kind: Kind, text: string)

  /** What one HTML page contributes: its `<title>` text and its entries. */
  datatype Page = Page(title: string, pieces: seq<Piece>)

  /** An unzipped archive. `names` lists the file table's keys in order. */
  datatype Archive = Archive(names: seq<string>, files: map<string, string>)

  /** The file table's keys are distinct and are exactly the stored entries. */
  ghost predicate ValidArchive(a: Archive) {
    && (forall i, j :: 0 <= i < j < |a.names| ==> a.names[i] != a.names[j])
    && (forall n :: n in a.names <==> n in a.files)
  }

  /** Title, author and the HTML entry names read from the package. */
  datatype Package = Package(title: string, author: string, htmlFiles: seq<string>)

  /** One numbered item of the extraction result. */
  datatype Item = Item(id: string, kind: Kind, content: string)

  /** The result of `parseEPUBToStructured`. */
  datatype Structured = Structured(title: string, author: string, content: seq<Item>)

  const DefaultTitle: string := "Unknown Title"
  const DefaultAuthor: string := "Unknown Author"

  // ---------------------------------------------------------------------
  // Markup walk (`extractTextFromHTML` / `processNode`)
  // ---------------------------------------------------------------------

  /** DOM `textContent`: the text nodes below a node, concatenated in
      document order; other non-element nodes contribute nothing. */
  function TextContent(n: Node): string {
    match n
    case Element(_, kids) => ForestText(kids)
    case TextNode(d) => d
    case OtherNode(_) => ""
  }

  function ForestText(ns: seq<Node>): string {
    if ns == [] then "" else TextContent(ns[0]) + ForestText(ns[1..])
  }

  /** `/^h[1-6]$/` on the lower-cased tag name. */
  predicate IsHeadingTag(t: string) {
    |t| == 2 && t[0] == 'h' && '1' <= t[1] <= '6'
  }

  /** The block containers the walk descends into. */
  predicate IsContainerTag(t: string) {
    t == "div" || t == "section" || t == "article" || t == "main"
  }

  /** The entry an element that stops the walk produces, if its trimmed text
      is not empty. */
  function Emit(kind: Kind, n: Node): seq<Piece> {
    var text := Trim(TextContent(n));
    if text != "" then [Piece(kind, text)] else []
  }

  /** Every extracted entry is a heading or a paragraph whose text is trimmed
      and not empty. */
  ghost predicate WellFormedPieces(ps: seq<Piece>) {
    forall k :: 0 <= k < |ps| ==> ps[k].kind != Title && ps[k].text != "" && IsTrimmed(ps[k].text)
  }

  /** `processNode`: headings and paragraphs emit their trimmed text (and are
      not descended into), containers are walked child by child, everything
      else emits nothing. */
  function ProcessNode(n: Node): (r: seq<Piece>)
    ensures WellFormedPieces(r)
    ensures !n.Element? ==> r == []
  {
    match n
    case Element(tag, kids) =>
      var t := Lower(tag);
      if IsHeadingTag(t) then Emit(Chapter, n)
      else if t == "p" then Emit(Paragraph, n)
      else if IsContainerTag(t) then ProcessForest(kids)
      else []
    case _ => []
  }

  /** `processNode` applied to each node in order, results concatenated. */
  function ProcessForest(ns: seq<Node>): (r: seq<Piece>)
    ensures WellFormedPieces(r)
  {
    if ns == [] then [] else ProcessNode(ns[0]) + ProcessForest(ns[1..])
  }

  /** Walking two sibling runs one after the other emits the first run's
      entries followed by the second's: nothing is reordered or merged. */
  lemma {:induction false} ProcessForestAppend(a: seq<Node>, b: seq<Node>)
    ensures ProcessForest(a + b) == ProcessForest(a) + ProcessForest(b)
    decreases |a|
  {
    if a != [] {
      assert (a + b)[0] == a[0];
      assert (a + b)[1..] == a[1..] + b;
      ProcessForestAppend(a[1..], b);
      calc {
        ProcessForest(a + b);
        ProcessNode(a[0]) + ProcessForest(a[1..] + b);
        ProcessNode(a[0]) + (ProcessForest(a[1..]) + ProcessForest(b));
        (ProcessNode(a[0]) + ProcessForest(a[1..])) + ProcessForest(b);
      }
    } else {
      assert a + b == b;
    }
  }

  /** A heading emits exactly one chapter entry, carrying its trimmed text,
      when that text is not empty, and nothing otherwise, whatever it
      contains; a paragraph likewise emits one paragraph entry. */
  lemma HeadingAndParagraph(tag: string, kids: seq<Node>)
    requires IsHeadingTag(Lower(tag)) || Lower(tag) == "p"
    ensures var text := Trim(ForestText(kids));
            var r := ProcessNode(Element(tag, kids));
            && (|r| == 1 <==> text != "")
            && (text == "" <==> r == [])
            && (|r| == 1 ==> r[0].text == text)
            && (|r| == 1 ==> (r[0].kind == Chapter <==> IsHeadingTag(Lower(tag))))
  {
  }

  /** A container emits exactly what its children emit; any other element
      (and any text or other node) emits nothing. */
  lemma ContainerAndOther(tag: string, kids: seq<Node>)
    ensures IsContainerTag(Lower(tag)) ==> ProcessNode(Element(tag, kids)) == ProcessForest(kids)
    ensures !IsHeadingTag(Lower(tag)) && Lower(tag) != "p" && !IsContainerTag(Lower(tag))
            ==> ProcessNode(Element(tag, kids)) == []
  {
  }

  /** The elements at which the walk stops and emits: headings and
      paragraphs reached through containers only, in document order. */
  function Reached(ns: seq<Node>): (r: seq<Node>)
    ensures forall k :: 0 <= k < |r| ==>
              (r[k].Element? && (IsHeadingTag(Lower(r[k].tag)) || Lower(r[k].tag) == "p"))
  {
    if ns == [] then []
    else
      var rest := Reached(ns[1..]);
      match ns[0]
      case Element(tag, kids) =>
        var t := Lower(tag);
        if IsHeadingTag(t) || t == "p" then [ns[0]] + rest
        else if IsContainerTag(t) then Reached(kids) + rest
        else rest
      case _ => rest
  }

  /** The entries of each reached element, in order. */
  function EmitAll(leaves: seq<Node>): seq<Piece> {
    if leaves == [] then []
    else LeafPieces(leaves[0]) + EmitAll(leaves[1..])
  }

  /** What one reached element emits: a chapter entry for a heading, a
      paragraph entry otherwise. */
  function LeafPieces(n: Node): seq<Piece> {
    if n.Element? && IsHeadingTag(Lower(n.tag)) then Emit(Chapter, n)
    else if n.Element? then Emit(Paragraph, n)
    else []
  }

  lemma {:induction false} EmitAllAppend(a: seq<Node>, b: seq<Node>)
    ensures EmitAll(a + b) == EmitAll(a) + EmitAll(b)
    decreases |a|
  {
    if a != [] {
      assert (a + b)[0] == a[0];
      assert (a + b)[1..] == a[1..] + b;
      EmitAllAppend(a[1..], b);
      calc {
        EmitAll(a + b);
        LeafPieces(a[0]) + EmitAll(a[1..] + b);
        LeafPieces(a[0]) + (EmitAll(a[1..]) + EmitAll(b));
        (LeafPieces(a[0]) + EmitAll(a[1..])) + EmitAll(b);
      }
    } else {
      assert a + b == b;
    }
  }

  /** The walk's output is the entries of the reached elements, in order,
      each one present exactly when its trimmed text is not empty. */
  lemma {:induction false} ProcessForestIsEmitReached(ns: seq<Node>)
    ensures ProcessForest(ns) == EmitAll(Reached(ns))
  {
    if ns != [] {
      ProcessForestIsEmitReached(ns[1..]);
      match ns[0]
      case Element(tag, kids) =>
        var t := Lower(tag);
        if IsHeadingTag(t) || t == "p" {
          assert [ns[0]] + Reached(ns[1..]) == [ns[0]] + Reached(ns[1..]);
          EmitAllAppend([ns[0]], Reached(ns[1..]));
        } else if IsContainerTag(t) {
          ProcessForestIsEmitReached(kids);
          EmitAllAppend(Reached(kids), Reached(ns[1..]));
        }
      case _ =>
    }
  }

  /** The walk emits at most one entry per reached element. */
  lemma {:induction false} EmitAllLength(leaves: seq<Node>)
    ensures |EmitAll(leaves)| <= |leaves|
  {
    if leaves != [] {
      EmitAllLength(leaves[1..]);
    }
  }

  /** `getElementsByTagName(name)[0]`: the first element, in document order,
      whose tag name is exactly `name`. */
  function FindFirst(ns: seq<Node>, name: string): (r: Option<Node>)
    ensures r.Some? ==> r.value.Element? && r.value.tag == name
    ensures r.None? <==> !HasTag(ns, name)
  {
    if ns == [] then None
    else match ns[0]
      case Element(t, kids) =>
        if t == name then Some(ns[0])
        else
          var f := FindFirst(kids, name);
          if f.Some? then f else FindFirst(ns[1..], name)
      case _ => FindFirst(ns[1..], name)
  }

  /** The forest's nodes in document order: each node, then its
      descendants, then the following siblings. */
  function Preorder(ns: seq<Node>): (r: seq<Node>)
    ensures |r| >= |ns|
  {
    if ns == [] then []
    else
      [ns[0]] + (match ns[0] case Element(_, kids) => Preorder(kids) case _ => []) + Preorder(ns[1..])
  }

  predicate Tagged(n: Node, name: string) {
    n.Element? && n.tag == name
  }

  /** The position of the first node of `ps` tagged `name`, or `|ps|` when
      there is none. */
  function FirstTaggedIndex(ps: seq<Node>, name: string): (i: nat)
    ensures i <= |ps|
    ensures forall j :: 0 <= j < i ==> !Tagged(ps[j], name)
    ensures i < |ps| ==> Tagged(ps[i], name)
  {
    if ps == [] then 0
    else if Tagged(ps[0], name) then 0
    else 1 + FirstTaggedIndex(ps[1..], name)
  }

  /** The first tagged node of `a + b` is the first of `a`, else the first
      of `b`. */
  lemma {:induction false} FirstTaggedAppend(a: seq<Node>, b: seq<Node>, name: string)
    ensures FirstTaggedIndex(a + b, name) ==
              if FirstTaggedIndex(a, name) < |a| then FirstTaggedIndex(a, name)
              else |a| + FirstTaggedIndex(b, name)
    decreases |a|
  {
    if a == [] {
      assert a + b == b;
    } else if Tagged(a[0], name) {
      assert (a + b)[0] == a[0];
    } else {
      assert (a + b)[1..] == a[1..] + b;
      FirstTaggedAppend(a[1..], b, name);
    }
  }

  /** The nodes below `n`, in document order. */
  function Below(n: Node): seq<Node> {
    match n
    case Element(_, kids) => Preorder(kids)
    case _ => []
  }

  /** The first match after an untagged head is the first match below it,
      else the first among the following siblings. */
  lemma FirstAfterHead(h: Node, below: seq<Node>, rest: seq<Node>, name: string)
    requires !Tagged(h, name)
    ensures var pre := [h] + below + rest;
            var i := FirstTaggedIndex(pre, name);
            && (FirstTaggedIndex(below, name) < |below| ==> i < |pre| && pre[i] == below[FirstTaggedIndex(below, name)])
            && (FirstTaggedIndex(below, name) == |below| ==>
                  (i < |pre| <==> FirstTaggedIndex(rest, name) < |rest|)
                  && (i < |pre| ==> pre[i] == rest[FirstTaggedIndex(rest, name)]))
  {
    var pre := [h] + below + rest;
    assert pre[1..] == below + rest;
    FirstTaggedAppend(below, rest, name);
    var k := FirstTaggedIndex(below, name);
    if k < |below| {
      assert pre[1 + k] == below[k];
    } else if FirstTaggedIndex(rest, name) < |rest| {
      assert pre[1 + |below| + FirstTaggedIndex(rest, name)] == rest[FirstTaggedIndex(rest, name)];
    }
  }

  /** `FindFirst` returns the first element named `name` in document order,
      and nothing when no element in document order has that name. */
  lemma {:induction false} FindFirstPreorder(ns: seq<Node>, name: string)
    ensures var pre := Preorder(ns);
            var i := FirstTaggedIndex(pre, name);
            FindFirst(ns, name) == if i < |pre| then Some(pre[i]) else None
  {
    if ns != [] {
      var pre := Preorder(ns);
      assert pre == [ns[0]] + Below(ns[0]) + Preorder(ns[1..]);
      if Tagged(ns[0], name) {
        assert pre[0] == ns[0];
      } else {
        FirstAfterHead(ns[0], Below(ns[0]), Preorder(ns[1..]), name);
        FindFirstPreorder(ns[1..], name);
        if ns[0].Element? {
          FindFirstPreorder(ns[0].children, name);
        }
      }
    }
  }

  /** Some element in the forest, at any depth, has tag name `name`. */
  predicate HasTag(ns: seq<Node>, name: string) {
    if ns == [] then false
    else (ns[0].Element? && (ns[0].tag == name || HasTag(ns[0].children, name)))
         || HasTag(ns[1..], name)
  }

  /** `extractTextFromHTML`: a failed parse yields no title and no entries;
      otherwise the title is the trimmed text of the first `<title>`, and the
      entries are those of the walk over the first `<body>`'s children (none
      without a body). */
  function ExtractPage(p: Parsed): (page: Page)
    ensures !p.Parsed? ==> page == Page("", [])
    ensures IsTrimmed(page.title)
    ensures WellFormedPieces(page.pieces)
    ensures p.Parsed? && !HasTag(p.doc, "body") ==> page.pieces == []
    ensures p.Parsed? && !HasTag(p.doc, "title") ==> page.title == ""
    ensures p.Parsed? && FindFirst(p.doc, "title").Some? ==>
              page.title == Trim(TextContent(FindFirst(p.doc, "title").value))
    ensures p.Parsed? && FindFirst(p.doc, "body").Some? ==>
              page.pieces == ProcessForest(FindFirst(p.doc, "body").value.children)
  {
    match p
    case Parsed(doc) =>
      var title := match FindFirst(doc, "title")
        case Some(t) => Trim(TextContent(t))
        case None => "";
      (match FindFirst(doc, "body")
       case Some(b) => Page(title, ProcessForest(b.children))
       case None => Page(title, []))
    case _ => Page("", [])
  }

  // ---------------------------------------------------------------------
  // Package metadata and HTML entries (`extractEPUBContent`)
  // ---------------------------------------------------------------------

  /** The package document `extractEPUBContent` reads: an entry name that
      ends in ".opf" and contains "content". */
  predicate IsOpfName(name: string) {
    EndsWith(name, ".opf") && Contains(name, "content")
  }

  /** The first package document name in key order, if any. */
  function FindOpf(names: seq<string>): (r: Option<string>)
    ensures r.Some? ==> r.value in names && IsOpfName(r.value)
    ensures r.None? <==> forall k :: 0 <= k < |names| ==> !IsOpfName(names[k])
    ensures r.Some? ==> exists k :: 0 <= k < |names| && names[k] == r.value &&
                          forall j :: 0 <= j < k ==> !IsOpfName(names[j])
  {
    if names == [] then None
    else if IsOpfName(names[0]) then Some(names[0])
    else
      var r := FindOpf(names[1..]);
      if r.Some? then
        var k :| 0 <= k < |names[1..]| && names[1..][k] == r.value &&
                 forall j :: 0 <= j < k ==> !IsOpfName(names[1..][j]);
        assert names[k + 1] == r.value;
        r
      else r
  }

  /** `/\.(x?html?)$/i`: ".htm", ".html", ".xhtm" or ".xhtml" at the end, in
      any letter case. */
  predicate IsHtmlName(name: string) {
    var l := Lower(name);
    EndsWith(l, ".htm") || EndsWith(l, ".html") || EndsWith(l, ".xhtm") || EndsWith(l, ".xhtml")
  }

  /** The names that satisfy `IsHtmlName`, in their original order. */
  function FilterHtml(names: seq<string>): (r: seq<string>)
    ensures forall n :: n in r <==> n in names && IsHtmlName(n)
    ensures |r| <= |names|
  {
    if names == [] then []
    else if IsHtmlName(names[0]) then [names[0]] + FilterHtml(names[1..])
    else FilterHtml(names[1..])
  }

  /** `htmlFiles`: the HTML entry names, ascending in plain lexical order. */
  function HtmlFiles(names: seq<string>): (r: seq<string>)
    ensures Lexical.Sorted(r)
    ensures forall n :: n in r <==> n in names && IsHtmlName(n)
    ensures multiset(r) == multiset(FilterHtml(names))
  {
    var f := FilterHtml(names);
    var r := Lexical.SortNames(f);
    assert forall n :: n in r <==> n in multiset(r);
    assert forall n :: n in f <==> n in multiset(f);
    r
  }

  /** The text of a `dc:` metadata element if it has any, trimmed; the
      default when the element is missing or its text is empty. */
  function MetaText(e: Option<Node>, default: string): (r: string)
    ensures e.None? ==> r == default
    ensures e.Some? && TextContent(e.value) != "" ==> r == Trim(TextContent(e.value))
    ensures e.Some? && TextContent(e.value) == "" ==> r == default
  {
    if e.Some? && TextContent(e.value) != "" then Trim(TextContent(e.value)) else default
  }

  /** A metadata element whose text is only white space gives the empty
      string, not the default: the text is non-empty, so it is used, and
      trimming leaves nothing. */
  lemma MetaTextBlank(e: Node, default: string)
    requires TextContent(e) != "" && forall i :: 0 <= i < |TextContent(e)| ==> IsSpace(TextContent(e)[i])
    ensures MetaText(Some(e), default) == ""
  {
  }

  /** `extractEPUBContent`: title and author start as the defaults and are
      replaced by the first `dc:title` / `dc:creator` of the package document
      if there is one; an exception from the XML parser propagates. */
  function ReadPackage(a: Archive, xml: string -> Parsed): (r: Result<Package>)
    requires ValidArchive(a)
    ensures r.Success? ==> r.value.htmlFiles == HtmlFiles(a.names)
    ensures r.Failure? <==> FindOpf(a.names).Some? && xml(a.files[FindOpf(a.names).value]).ParseError?
    ensures FindOpf(a.names).None? ==> r == Success(Package(DefaultTitle, DefaultAuthor, HtmlFiles(a.names)))
    ensures r.Success? && FindOpf(a.names).Some? && xml(a.files[FindOpf(a.names).value]).Parsed? ==>
              var doc := xml(a.files[FindOpf(a.names).value]).doc;
              r.value.title == MetaText(FindFirst(doc, "dc:title"), DefaultTitle) &&
              r.value.author == MetaText(FindFirst(doc, "dc:creator"), DefaultAuthor)
    ensures r.Success? && (FindOpf(a.names).None? || !xml(a.files[FindOpf(a.names).value]).Parsed?) ==>
              r.value.title == DefaultTitle && r.value.author == DefaultAuthor
  {
    var files := HtmlFiles(a.names);
    match FindOpf(a.names)
    case None => Success(Package(DefaultTitle, DefaultAuthor, files))
    case Some(opf) =>
      match xml(a.files[opf])
      case ParseError => Failure("package document could not be parsed")
      case NoDocument => Success(Package(DefaultTitle, DefaultAuthor, files))
      case Parsed(doc) =>
        Success(Package(MetaText(FindFirst(doc, "dc:title"), DefaultTitle),
                        MetaText(FindFirst(doc, "dc:creator"), DefaultAuthor),
                        files))
  }

  // ---------------------------------------------------------------------
  // Aggregation (`parseEPUBToStructured`)
  // ---------------------------------------------------------------------

  /** The page an entry name yields (`file.async('text')` followed by
      `extractTextFromHTML`), or nothing when the archive does not hold it. */
  function LoadPage(a: Archive, html: string -> Parsed): string -> Option<Page> {
    name => if name in a.files then Some(ExtractPage(html(a.files[name]))) else None
  }

  /** The entries a name contributes: none when it is absent. */
  function PiecesOf(load: string -> Option<Page>, name: string): seq<Piece> {
    if load(name).Some? then load(name).value.pieces else []
  }

  /** The title a name contributes: none when it is absent. */
  function TitleOf(load: string -> Option<Page>, name: string): string {
    if load(name).Some? then load(name).value.title else ""
  }

  /** The entries of the pages named, concatenated in the order named. */
  function PiecesIn(load: string -> Option<Page>, names: seq<string>): seq<Piece>
    decreases |names|
  {
    if names == [] then []
    else PiecesIn(load, names[..|names| - 1]) + PiecesOf(load, names[|names| - 1])
  }

  /** Extracted entries stay well formed through the concatenation. */
  lemma {:induction false} PiecesInWellFormed(a: Archive, html: string -> Parsed, names: seq<string>)
    ensures WellFormedPieces(PiecesIn(LoadPage(a, html), names))
    decreases |names|
  {
    if names != [] {
      PiecesInWellFormed(a, html, names[..|names| - 1]);
    }
  }

  /** A name the archive does not hold contributes nothing. */
  lemma AbsentContributesNothing(a: Archive, html: string -> Parsed, names: seq<string>, name: string)
    requires name !in a.files
    ensures PiecesIn(LoadPage(a, html), names + [name]) == PiecesIn(LoadPage(a, html), names)
  {
    assert (names + [name])[..|names|] == names;
  }

  /** The position of the first page with a non-empty title, or the number
      of pages when there is none. */
  function FirstTitled(load: string -> Option<Page>, names: seq<string>): (j: nat)
    ensures j <= |names|
    ensures forall k :: 0 <= k < j ==> TitleOf(load, names[k]) == ""
    ensures j < |names| ==> TitleOf(load, names[j]) != ""
  {
    if names == [] then 0
    else if TitleOf(load, names[0]) != "" then 0
    else 1 + FirstTitled(load, names[1..])
  }

  /** The three conditions on `FirstTitled` single out one position. */
  lemma FirstTitledUnique(load: string -> Option<Page>, names: seq<string>, j: nat)
    requires j <= |names|
    requires forall k :: 0 <= k < j ==> TitleOf(load, names[k]) == ""
    requires j < |names| ==> TitleOf(load, names[j]) != ""
    ensures FirstTitled(load, names) == j
  {
  }

  lemma FirstTitledStep(load: string -> Option<Page>, files: seq<string>, i: nat)
    requires i < |files|
    ensures var f := FirstTitled(load, files[..i]);
            FirstTitled(load, files[..i + 1]) ==
              if f < i then f
              else if TitleOf(load, files[i]) != "" then i
              else i + 1
  {
    var f := FirstTitled(load, files[..i]);
    var p := files[..i + 1];
    assert forall k :: 0 <= k < i ==> p[k] == files[..i][k];
    if f < i {
      FirstTitledUnique(load, p, f);
    } else if TitleOf(load, files[i]) != "" {
      FirstTitledUnique(load, p, i);
    } else {
      FirstTitledUnique(load, p, i + 1);
    }
  }

  /** The id of the `n`-th item. */
  function ContentId(n: nat): string {
    "content-" + NatToString(n)
  }

  /** Item ids of different positions differ. */
  lemma ContentIdInjective(m: nat, n: nat)
    ensures ContentId(m) == ContentId(n) ==> m == n
  {
    if ContentId(m) == ContentId(n) {
      assert NatToString(m) == ContentId(m)[8..];
      NatToStringInjective(m, n);
    }
  }

  /** Items numbered consecutively from `start`, one per entry, in order. */
  ghost predicate NumberedFrom(items: seq<Item>, pieces: seq<Piece>, start: nat) {
    && |items| == |pieces|
    && forall k :: 0 <= k < |items| ==>
         items[k] == Item(ContentId(start + k), pieces[k].kind, pieces[k].text)
  }

  /** Consecutively numbered items have distinct ids. */
  lemma NumberedDistinct(items: seq<Item>, pieces: seq<Piece>, start: nat)
    requires NumberedFrom(items, pieces, start)
    ensures forall k, m :: 0 <= k < m < |items| ==> items[k].id != items[m].id
  {
    forall k, m | 0 <= k < m < |items| ensures items[k].id != items[m].id {
      ContentIdInjective(start + k, start + m);
    }
  }

  /** The `forEach` that pushes one page's entries, drawing ids from the
      running counter `next`. */
  method PushNumbered(pieces: seq<Piece>, next: nat) returns (items: seq<Item>, after: nat)
    ensures NumberedFrom(items, pieces, next)
    ensures after == next + |pieces|
  {
    items := [];
    after := next;
    var j := 0;
    while j < |pieces|
      invariant 0 <= j <= |pieces|
      invariant after == next + j
      invariant NumberedFrom(items, pieces[..j], next)
    {
      items := items + [Item(ContentId(after), pieces[j].kind, pieces[j].text)];
      after := after + 1;
      j := j + 1;
    }
    assert pieces[..j] == pieces;
  }

  lemma NumberedAppend(a: seq<Item>, pa: seq<Piece>, b: seq<Item>, pb: seq<Piece>)
    requires NumberedFrom(a, pa, 1) && NumberedFrom(b, pb, |pa| + 1)
    ensures NumberedFrom(a + b, pa + pb, 1)
  {
  }

  lemma PiecesInStep(load: string -> Option<Page>, files: seq<string>, i: nat)
    requires i < |files|
    ensures PiecesIn(load, files[..i + 1]) == PiecesIn(load, files[..i]) + PiecesOf(load, files[i])
  {
    assert files[..i + 1][..i] == files[..i];
  }

  /** The loop of `parseEPUBToStructured` over the named pages: the pages
      that load are taken in order, their entries are appended with ids drawn
      from a counter starting at 1, and the first non-empty page title is
      remembered. */
  method CollectPages(files: seq<string>, load: string -> Option<Page>)
    returns (content: seq<Item>, bookTitle: Option<string>)
    ensures NumberedFrom(content, PiecesIn(load, files), 1)
    ensures var j := FirstTitled(load, files);
            bookTitle == (if j < |files| then Some(TitleOf(load, files[j])) else None)
  {
    content := [];
    bookTitle := None;
    var contentId := 1;
    var i := 0;
    while i < |files|
      invariant 0 <= i <= |files|
      invariant contentId == |content| + 1
      invariant NumberedFrom(content, PiecesIn(load, files[..i]), 1)
      invariant bookTitle == TitleSoFar(load, files, i)
    {
      var fileName := files[i];
      var file := load(fileName);
      var pushed: seq<Item> := [];
      if file.Some? {
        var page := file.value;
        if page.title != "" && bookTitle.None? {
          bookTitle := Some(page.title);
        }
        pushed, contentId := PushNumbered(page.pieces, contentId);
      }
      PiecesStep(load, files, i, content, pushed);
      TitleSoFarStep(load, files, i);
      content := content + pushed;
      i := i + 1;
    }
    assert files[..|files|] == files;
  }

  /** The title found among the first `i` pages, if any. */
  ghost function TitleSoFar(load: string -> Option<Page>, files: seq<string>, i: nat): Option<string>
    requires i <= |files|
  {
    var f := FirstTitled(load, files[..i]);
    if f < i then Some(TitleOf(load, files[f])) else None
  }

  /** A title once found stays; otherwise page `i` supplies one when its
      title is not empty. */
  lemma TitleSoFarStep(load: string -> Option<Page>, files: seq<string>, i: nat)
    requires i < |files|
    ensures TitleSoFar(load, files, i + 1) ==
              if TitleSoFar(load, files, i).Some? then TitleSoFar(load, files, i)
              else if TitleOf(load, files[i]) != "" then Some(TitleOf(load, files[i]))
              else None
  {
    FirstTitledStep(load, files, i);
  }

  /** Appending page `i`'s items, numbered on from the items so far, keeps
      the numbering of all the pages read. */
  lemma PiecesStep(load: string -> Option<Page>, files: seq<string>, i: nat, content: seq<Item>, pushed: seq<Item>)
    requires i < |files|
    requires NumberedFrom(content, PiecesIn(load, files[..i]), 1)
    requires NumberedFrom(pushed, PiecesOf(load, files[i]), |content| + 1)
    ensures NumberedFrom(content + pushed, PiecesIn(load, files[..i + 1]), 1)
  {
    PiecesInStep(load, files, i);
    NumberedAppend(content, PiecesIn(load, files[..i]), pushed, PiecesOf(load, files[i]));
  }

  /** The book title: the first non-empty page title, else `fallback`. */
  function BookTitle(load: string -> Option<Page>, files: seq<string>, fallback: string): string {
    var j := FirstTitled(load, files);
    if j < |files| then TitleOf(load, files[j]) else fallback
  }

  /** `parseEPUBToStructured`: every page named in `htmlFiles` that the
      archive holds is extracted in turn; its entries are appended with ids
      "content-1", "content-2", ... in emission order; the book title is the
      first non-empty page title, else the package title. */
  method ParseEpubToStructured(a: Archive, html: string -> Parsed, xml: string -> Parsed)
    returns (r: Result<Structured>)
    requires ValidArchive(a)
    ensures r.Failure? <==> ReadPackage(a, xml).Failure?
    ensures r.Failure? ==> r.message == ReadPackage(a, xml).message
    ensures r.Success? ==>
      var pkg := ReadPackage(a, xml).value;
      var load := LoadPage(a, html);
      && r.value.author == pkg.author
      && r.value.title == BookTitle(load, pkg.htmlFiles, pkg.title)
      && NumberedFrom(r.value.content, PiecesIn(load, pkg.htmlFiles), 1)
      && WellFormedPieces(PiecesIn(load, pkg.htmlFiles))
      && (forall k, m :: 0 <= k < m < |r.value.content| ==> r.value.content[k].id != r.value.content[m].id)
  {
    var pkg := ReadPackage(a, xml);
    if pkg.Failure? {
      return Failure(pkg.message);
    }
    var files := pkg.value.htmlFiles;
    var load := LoadPage(a, html);
    var content, bookTitle := CollectPages(files, load);
    PiecesInWellFormed(a, html, files);
    NumberedDistinct(content, PiecesIn(load, files), 1);
    var title := if bookTitle.Some? then bookTitle.value else pkg.value.title;
    r := Success(Structured(title, pkg.value.author, content));
  }
}
