/** The conversion pipeline of `src/api/epubConverter.ts`: extract the
    structured items of an EPUB, translate their texts in batches, pair each
    original with its translation, and translate the book title. Writing the
    result as JSON is outside the model. */
module EpubConverter {
  import opened Results
  import opened Text
  import opened EpubParser
  import opened LlmTranslator

  /** One bilingual entry: the item's id and type, its original text and its
      translation. */
  datatype BilingualItem = BilingualItem(id: string, original: string, translated: string, kind: Kind)

  /** A converted book. */
  datatype Bilingual = Bilingual(title: string, originalTitle: string, author: string, content: seq<BilingualItem>)

  const NoContentMessage: string := "No text content found in EPUB"
  const FailedPrefix: string := "[Translation failed: "
  const FailedSuffix: string := "]"

  /** The entry built for `item` at position `index`: the translation at that
      index when there is a non-empty one, otherwise a marker that quotes the
      original text. */
  function Pair(item: Item, translated: seq<string>, index: nat): (b: BilingualItem)
    ensures b.id == item.id && b.original == item.content && b.kind == item.kind
    ensures index < |translated| && translated[index] != "" ==> b.translated == translated[index]
    ensures !(index < |translated| && translated[index] != "") ==>
              && StartsWith(b.translated, FailedPrefix)
              && EndsWith(b.translated, FailedSuffix)
              && |b.translated| == |FailedPrefix| + |item.content| + |FailedSuffix|
              && b.translated[|FailedPrefix|..|FailedPrefix| + |item.content|] == item.content
  {
    var t := if index < |translated| && translated[index] != "" then translated[index]
             else FailedPrefix + item.content + FailedSuffix;
    BilingualItem(item.id, item.content, t, item.kind)
  }

  /** The texts handed to the translator: the items' contents, in order. */
  function Texts(items: seq<Item>): (r: seq<string>)
    ensures |r| == |items|
    ensures forall k :: 0 <= k < |items| ==> r[k] == items[k].content
  {
    seq(|items|, k requires 0 <= k < |items| => items[k].content)
  }

  /** Pairing with a complete, non-empty translation never produces the
      failure marker. */
  lemma PairComplete(items: seq<Item>, translated: seq<string>, k: nat)
    requires |translated| == |items| && k < |items|
    requires forall m :: 0 <= m < |translated| ==> translated[m] != ""
    ensures Pair(items[k], translated, k) ==
              BilingualItem(items[k].id, items[k].content, translated[k], items[k].kind)
  {
  }

  /** Every item paired with the translation at its index. */
  function PairAll(items: seq<Item>, translated: seq<string>): (r: seq<BilingualItem>)
    ensures |r| == |items|
    ensures forall k :: 0 <= k < |items| ==> r[k] == Pair(items[k], translated, k)
  {
    seq(|items|, k requires 0 <= k < |items| => Pair(items[k], translated, k))
  }

  /** Pairing consecutively numbered items with their complete translations
      gives, at each index, the entry's id, its text and the text's
      translation. */
  lemma PairedContent(items: seq<Item>, pieces: seq<Piece>, translated: seq<string>, llm: string -> Option<string>)
    requires NumberedFrom(items, pieces, 1)
    requires |translated| == |items|
    requires forall k :: 0 <= k < |items| ==> translated[k] == TranslateText(items[k].content, llm)
    ensures forall k :: 0 <= k < |pieces| ==>
              PairAll(items, translated)[k] ==
                BilingualItem(ContentId(k + 1), pieces[k].text, TranslateText(pieces[k].text, llm), pieces[k].kind)
  {
    forall k | 0 <= k < |pieces|
      ensures PairAll(items, translated)[k] ==
                BilingualItem(ContentId(k + 1), pieces[k].text, TranslateText(pieces[k].text, llm), pieces[k].kind)
    {
      PairComplete(items, translated, k);
    }
  }

  /** `convertEPUBToBilingual`: an extraction error propagates; a book with
      no items is refused; otherwise every item is paired with its
      translation, in order, and the title is translated. The progress
      values the translator reports are returned alongside. */
  method ConvertToBilingual(a: Archive, html: string -> Parsed, xml: string -> Parsed,
                            llm: string -> Option<string>)
    returns (r: Result<Bilingual>, reports: seq<int>)
    requires ValidArchive(a)
    ensures ReadPackage(a, xml).Failure? ==> r == Failure(ReadPackage(a, xml).message) && reports == []
    ensures ReadPackage(a, xml).Success? ==>
      var pkg := ReadPackage(a, xml).value;
      var load := LoadPage(a, html);
      var pieces := PiecesIn(load, pkg.htmlFiles);
      && (pieces == [] ==> r == Failure(NoContentMessage) && reports == [])
      && (pieces != [] ==>
            && r.Success?
            && r.value.originalTitle == BookTitle(load, pkg.htmlFiles, pkg.title)
            && r.value.title == TranslateText(r.value.originalTitle, llm)
            && r.value.author == pkg.author
            && |r.value.content| == |pieces|
            && (forall k :: 0 <= k < |pieces| ==>
                  r.value.content[k] ==
                    BilingualItem(ContentId(k + 1), pieces[k].text,
                                  TranslateText(pieces[k].text, llm), pieces[k].kind))
            && |reports| == (|pieces| + BatchSize - 1) / BatchSize
            && reports[|reports| - 1] == 100)
  {
    reports := [];
    var parsed := ParseEpubToStructured(a, html, xml);
    if parsed.Failure? {
      return Failure(parsed.message), [];
    }
    var book := parsed.value;
    if |book.content| == 0 {
      return Failure(NoContentMessage), [];
    }
    var texts := Texts(book.content);
    var translated;
    translated, reports := TranslateBatch(texts, llm);
    var content := PairAll(book.content, translated);
    PairedContent(book.content, PiecesIn(LoadPage(a, html), ReadPackage(a, xml).value.htmlFiles), translated, llm);
    var title := TranslateText(book.title, llm);
    r := Success(Bilingual(title, book.title, book.author, content));
  }
}
