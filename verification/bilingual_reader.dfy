/** The view-state logic of `src/components/BilingualReader.tsx`: which side
    of each entry is shown, the menu, the paragraph spacing, and how an entry
    is rendered (its text, class list, element and inline styles). React's
    state hooks become a `View` value and pure transitions; the
    `setShowOriginalTitle` callback of the parent is the `showOriginalTitle`
    flag of the view. */
module Reader {
  import opened Results
  import opened Text

  /** One entry as the reader receives it. */
  datatype ContentItem = ContentItem(
    id: string,
    original: string,
    translated: string,
    itemType: Option<string>,
    className: Option<string>,
    tagName: Option<string>,
    styles: Option<string>)

  datatype View = View(showOriginal: map<string, bool>, showOriginalTitle: bool, menuOpen: bool, spacing: int)

  datatype Action =
    | ToggleLanguage(id: string)
    | ToggleMenu
    | ShowAllOriginal
    | ShowAllTranslated
    | AdjustParagraphSpacing(delta: int)

  const MaxSpacing: int := 50

  // ---------------------------------------------------------------------
  // Visibility map
  // ---------------------------------------------------------------------

  /** The ids of the entries. */
  function Ids(content: seq<ContentItem>): set<string> {
    set i | 0 <= i < |content| :: content[i].id
  }

  /** `content.reduce((acc, item) => { acc[item.id] = value; ... }, {})`:
      every entry's id mapped to `value`, and nothing else. */
  function AllSet(content: seq<ContentItem>, value: bool): (m: map<string, bool>)
    ensures m.Keys == Ids(content)
    ensures forall id :: id in m ==> m[id] == value
    decreases |content|
  {
    if content == [] then map[]
    else
      var init := content[..|content| - 1];
      assert Ids(content) == Ids(init) + {content[|content| - 1].id} by {
        forall id | id in Ids(content) ensures id in Ids(init) + {content[|content| - 1].id} {
          var i :| 0 <= i < |content| && content[i].id == id;
          if i < |content| - 1 {
            assert init[i].id == id;
          }
        }
        forall id | id in Ids(init) ensures id in Ids(content) {
          var i :| 0 <= i < |init| && init[i].id == id;
          assert content[i].id == id;
        }
      }
      AllSet(init, value)[content[|content| - 1].id := value]
  }

  /** The initial view: every entry shows its original, the menu is closed
      and the spacing is 0. */
  function Init(content: seq<ContentItem>, showOriginalTitle: bool): (v: View)
    ensures v.showOriginal.Keys == Ids(content)
    ensures forall id :: id in v.showOriginal ==> v.showOriginal[id]
    ensures !v.menuOpen && v.spacing == 0
  {
    View(AllSet(content, true), showOriginalTitle, false, 0)
  }

  /** `showOriginal[id]`, where a missing entry reads as `undefined`. */
  predicate ShowsOriginal(m: map<string, bool>, id: string) {
    id in m && m[id]
  }

  /** `{ ...prev, [id]: !prev[id] }`: the entry for `id` flips, an absent one
      becomes `true`, and every other entry stays. */
  function Toggle(m: map<string, bool>, id: string): (r: map<string, bool>)
    ensures r.Keys == m.Keys + {id}
    ensures r[id] == !ShowsOriginal(m, id)
    ensures forall k :: k in m && k != id ==> r[k] == m[k]
  {
    m[id := !ShowsOriginal(m, id)]
  }

  /** Toggling an entry twice restores the map when the entry was there. */
  lemma ToggleTwice(m: map<string, bool>, id: string)
    requires id in m
    ensures Toggle(Toggle(m, id), id) == m
  {
  }

  /** `Math.max(0, Math.min(50, prev + delta))`. */
  function AdjustSpacing(prev: int, delta: int): (r: int)
    ensures 0 <= r <= MaxSpacing
    ensures 0 <= prev + delta <= MaxSpacing ==> r == prev + delta
    ensures prev + delta < 0 ==> r == 0
    ensures prev + delta > MaxSpacing ==> r == MaxSpacing
  {
    var inner := if MaxSpacing < prev + delta then MaxSpacing else prev + delta;
    if 0 < inner then inner else 0
  }

  /** One user action. */
  function Step(content: seq<ContentItem>, v: View, a: Action): (w: View)
    ensures a.ToggleLanguage? ==> w == v.(showOriginal := Toggle(v.showOriginal, a.id))
    ensures a.ToggleMenu? ==> w == v.(menuOpen := !v.menuOpen)
    ensures (a.ShowAllOriginal? || a.ShowAllTranslated?) ==>
              var value := a.ShowAllOriginal?;
              && w.showOriginal.Keys == Ids(content)
              && (forall id :: id in w.showOriginal ==> w.showOriginal[id] == value)
              && w.showOriginalTitle == value && !w.menuOpen && w.spacing == v.spacing
    ensures a.AdjustParagraphSpacing? ==> w == v.(spacing := AdjustSpacing(v.spacing, a.delta))
  {
    match a
    case ToggleLanguage(id) => v.(showOriginal := Toggle(v.showOriginal, id))
    case ToggleMenu => v.(menuOpen := !v.menuOpen)
    case ShowAllOriginal => v.(showOriginal := AllSet(content, true), showOriginalTitle := true, menuOpen := false)
    case ShowAllTranslated => v.(showOriginal := AllSet(content, false), showOriginalTitle := false, menuOpen := false)
    case AdjustParagraphSpacing(delta) => v.(spacing := AdjustSpacing(v.spacing, delta))
  }

  /** The spacing stays in [0, 50] from the initial view through any sequence
      of actions. */
  lemma {:induction false} SpacingBounded(content: seq<ContentItem>, showOriginalTitle: bool, actions: seq<Action>)
    ensures 0 <= Run(content, Init(content, showOriginalTitle), actions).spacing <= MaxSpacing
    decreases |actions|
  {
    if actions != [] {
      SpacingBounded(content, showOriginalTitle, actions[..|actions| - 1]);
    }
  }

  /** The view after the actions, in order. */
  function Run(content: seq<ContentItem>, v: View, actions: seq<Action>): View
    decreases |actions|
  {
    if actions == [] then v else Step(content, Run(content, v, actions[..|actions| - 1]), actions[|actions| - 1])
  }

  /** Toggling one entry leaves every other entry's side alone. */
  lemma ToggleIsLocal(content: seq<ContentItem>, v: View, id: string, other: string)
    requires other != id
    ensures ShowsOriginal(Step(content, v, ToggleLanguage(id)).showOriginal, other) ==
              ShowsOriginal(v.showOriginal, other)
  {
  }

  // ---------------------------------------------------------------------
  // Rendering one entry
  // ---------------------------------------------------------------------

  /** The text shown: the original exactly when the map says so. */
  function DisplayedText(m: map<string, bool>, item: ContentItem): (t: string)
    ensures ShowsOriginal(m, item.id) ==> t == item.original
    ensures !ShowsOriginal(m, item.id) ==> t == item.translated
  {
    if ShowsOriginal(m, item.id) then item.original else item.translated
  }

  predicate IsCjk(c: char) {
    '\U{4E00}' <= c <= '\U{9FFF}'
  }

  /** `/[\u4e00-\u9fff]/.test(text)`. */
  predicate HasCjk(text: string)
    decreases |text|
  {
    text != [] && (IsCjk(text[0]) || HasCjk(text[1..]))
  }

  lemma {:induction false} HasCjkIff(text: string)
    ensures HasCjk(text) <==> exists i :: 0 <= i < |text| && IsCjk(text[i])
    decreases |text|
  {
    if text != [] {
      HasCjkIff(text[1..]);
      if exists i :: 0 <= i < |text| && IsCjk(text[i]) {
        var i :| 0 <= i < |text| && IsCjk(text[i]);
        if i > 0 {
          assert IsCjk(text[1..][i - 1]);
        }
      }
    }
  }

  /** The reader's own class for an entry: by type, and for paragraphs by
      whether the shown text has a CJK ideograph. */
  function BaseClass(itemType: Option<string>, text: string): string {
    if itemType == Some("title") then "title-text"
    else if itemType == Some("chapter") then "chapter-text"
    else if HasCjk(text) then "paragraph chinese-text"
    else "paragraph english-text"
  }

  /** The class list: the reader's class, then the entry's own class after a
      space when it has one. */
  function ItemClass(item: ContentItem, text: string): (c: string)
    ensures StartsWith(c, BaseClass(item.itemType, text))
    ensures Given(item.className) ==> c == BaseClass(item.itemType, text) + " " + item.className.value
    ensures !Given(item.className) ==> c == BaseClass(item.itemType, text)
  {
    var base := BaseClass(item.itemType, text);
    if Given(item.className) then
      assert (base + " " + item.className.value)[..|base|] == base;
      base + " " + item.className.value
    else base
  }

  /** The element: the entry's own tag, else by type. */
  function TagFor(item: ContentItem): (tag: string)
    ensures Given(item.tagName) ==> tag == item.tagName.value
    ensures !Given(item.tagName) ==>
              tag == (if item.itemType == Some("title") then "h2"
                      else if item.itemType == Some("chapter") then "h3"
                      else "p")
  {
    if Given(item.tagName) then item.tagName.value
    else if item.itemType == Some("title") then "h2"
    else if item.itemType == Some("chapter") then "h3"
    else "p"
  }

  // ---------------------------------------------------------------------
  // Inline styles
  // ---------------------------------------------------------------------

  predicate IsLowerAscii(c: char) {
    'a' <= c <= 'z'
  }

  /** `.replace(/-([a-z])/g, g => g[1].toUpperCase())`, left to right. */
  function Camel(s: string): (r: string)
    ensures |r| <= |s|
    ensures s != [] && !IsLowerAscii(s[0]) ==> r != [] && !IsLowerAscii(r[0])
    ensures s != [] && IsLowerAscii(s[0]) ==> r != [] && r[0] == s[0]
    decreases |s|
  {
    if s == [] then []
    else if |s| >= 2 && s[0] == '-' && IsLowerAscii(s[1]) then [UpperChar(s[1])] + Camel(s[2..])
    else [s[0]] + Camel(s[1..])
  }

  /** After camel-casing, no hyphen is followed by a lower-case letter. */
  lemma {:induction false} CamelHasNoDashLower(s: string)
    ensures forall i :: 0 <= i < |Camel(s)| - 1 && Camel(s)[i] == '-' ==> !IsLowerAscii(Camel(s)[i + 1])
    decreases |s|
  {
    if s != [] {
      if |s| >= 2 && s[0] == '-' && IsLowerAscii(s[1]) {
        CamelHasNoDashLower(s[2..]);
        assert Camel(s)[1..] == Camel(s[2..]);
      } else {
        CamelHasNoDashLower(s[1..]);
        assert Camel(s)[1..] == Camel(s[1..]);
      }
    }
  }

  /** No hyphen followed by a lower-case letter. */
  predicate NoDashLower(s: string) {
    forall i :: 0 <= i < |s| - 1 && s[i] == '-' ==> !IsLowerAscii(s[i + 1])
  }

  /** A name with nothing to camel-case is kept as it is. */
  lemma {:induction false} CamelIdentity(s: string)
    requires NoDashLower(s)
    ensures Camel(s) == s
    decreases |s|
  {
    if s != [] {
      assert NoDashLower(s[1..]) by {
        forall i | 0 <= i < |s[1..]| - 1 && s[1..][i] == '-'
          ensures !IsLowerAscii(s[1..][i + 1])
        {
          assert s[i + 1] == '-';
        }
      }
      CamelIdentity(s[1..]);
      assert s == [s[0]] + s[1..];
    }
  }

  /** Camel-casing works piece by piece when no hyphen at the end of the
      first piece meets a lower-case letter at the start of the second. */
  lemma {:induction false} CamelAppend(a: string, b: string)
    requires !(a != [] && a[|a| - 1] == '-' && b != [] && IsLowerAscii(b[0]))
    ensures Camel(a + b) == Camel(a) + Camel(b)
    decreases |a|
  {
    var s := a + b;
    if a == [] {
      assert s == b;
    } else if |a| >= 2 && a[0] == '-' && IsLowerAscii(a[1]) {
      assert s[0] == '-' && s[1] == a[1] && s[2..] == a[2..] + b;
      assert Camel(a) == [UpperChar(a[1])] + Camel(a[2..]);
      calc {
        Camel(s);
        [UpperChar(a[1])] + Camel(a[2..] + b);
        { CamelAppend(a[2..], b); }
        [UpperChar(a[1])] + (Camel(a[2..]) + Camel(b));
        Camel(a) + Camel(b);
      }
    } else {
      assert s[0] == a[0] && s[1..] == a[1..] + b;
      assert !(|s| >= 2 && s[0] == '-' && IsLowerAscii(s[1]));
      assert Camel(a) == [a[0]] + Camel(a[1..]);
      calc {
        Camel(s);
        [a[0]] + Camel(a[1..] + b);
        { CamelAppend(a[1..], b); }
        [a[0]] + (Camel(a[1..]) + Camel(b));
        Camel(a) + Camel(b);
      }
    }
  }

  /** Each hyphen followed by a lower-case letter becomes that letter in
      upper case, and what surrounds it is camel-cased on its own. */
  lemma CamelStep(a: string, c: char, b: string)
    requires IsLowerAscii(c)
    ensures Camel(a + ['-', c] + b) == Camel(a) + [UpperChar(c)] + Camel(b)
  {
    var t := ['-', c] + b;
    assert a + ['-', c] + b == a + t;
    CamelAppend(a, t);
    assert t[2..] == b;
  }

  /** A declaration `property: value`: both sides trimmed, only the text
      before a second colon kept as the value; nothing when either side is
      empty. */
  function Declaration(piece: string): (d: Option<(string, string)>)
    ensures d.Some? ==> d.value.0 != "" && d.value.1 != "" && IsTrimmed(d.value.1) && ':' !in d.value.1
  {
    var parts := Split(piece, ':');
    var property := Trim(parts[0]);
    var value := if |parts| > 1 then Trim(parts[1]) else "";
    if property != "" && value != "" then
      assert ':' !in value by {
        assert ':' !in parts[1];
        assert forall i :: 0 <= i < |value| ==> value[i] in parts[1];
      }
      Some((Camel(property), value))
    else None
  }

  /** The first two pieces of `p`, a separator, `v` and then either
      nothing or another separator, are `p` and `v`. */
  lemma SplitLeading(p: string, v: string, rest: string, sep: char)
    requires sep !in p && sep !in v
    requires rest == [] || rest[0] == sep
    ensures var parts := Split(p + [sep] + v + rest, sep);
            |parts| >= 2 && parts[0] == p && parts[1] == v
  {
    var tail := Split(v + rest, sep);
    assert Split(p + [sep] + v + rest, sep) == [p] + tail by {
      assert p + [sep] + v + rest == p + [sep] + (v + rest);
      SplitAppend(p, v + rest, sep);
    }
    assert tail[0] == v by {
      if rest == [] {
        assert v + rest == v;
      } else {
        assert v + rest == v + [sep] + rest[1..];
        SplitAppend(v, rest[1..], sep);
      }
    }
  }

  /** The declaration `p:v`, possibly followed by a further colon and
      anything, sets the camel-cased trimmed property to the trimmed value,
      unless either of them is empty. */
  lemma DeclarationOf(p: string, v: string, rest: string)
    requires ':' !in p && ':' !in v
    requires rest == "" || rest[0] == ':'
    ensures Declaration(p + ":" + v + rest) ==
              if Trim(p) != "" && Trim(v) != "" then Some((Camel(Trim(p)), Trim(v))) else None
  {
    assert p + ":" + v + rest == p + [':'] + v + rest;
    SplitLeading(p, v, rest, ':');
  }

  /** A piece without a colon declares nothing. */
  lemma DeclarationWithoutColon(piece: string)
    requires ':' !in piece
    ensures Declaration(piece) == None
  {
  }

  /** The `reduce` over the declarations: each kept declaration sets its
      property, later ones overriding earlier ones. */
  function Declare(acc: map<string, string>, pieces: seq<string>): map<string, string>
    decreases |pieces|
  {
    if pieces == [] then acc
    else
      var d := Declaration(pieces[0]);
      Declare(if d.Some? then acc[d.value.0 := d.value.1] else acc, pieces[1..])
  }

  /** The styles of an entry with inline styles. */
  function ParseStyles(styles: string): map<string, string> {
    Declare(map[], Split(styles, ';'))
  }

  /** Starting from existing declarations overlays the new ones on them. */
  lemma {:induction false} DeclareOver(acc: map<string, string>, pieces: seq<string>)
    ensures Declare(acc, pieces) == acc + Declare(map[], pieces)
    decreases |pieces|
  {
    if pieces != [] {
      var d := Declaration(pieces[0]);
      var rest := Declare(map[], pieces[1..]);
      if d.Some? {
        var k, v := d.value.0, d.value.1;
        DeclareOver(acc[k := v], pieces[1..]);
        DeclareOver(map[k := v], pieces[1..]);
        UpdateThenOverlay(acc, k, v, rest);
      } else {
        DeclareOver(acc, pieces[1..]);
      }
    }
  }

  lemma UpdateThenOverlay(acc: map<string, string>, k: string, v: string, rest: map<string, string>)
    ensures acc[k := v] + rest == acc + (map[k := v] + rest)
  {
  }

  lemma {:induction false} DeclareAppend(acc: map<string, string>, ps: seq<string>, qs: seq<string>)
    ensures Declare(acc, ps + qs) == Declare(Declare(acc, ps), qs)
    decreases |ps|
  {
    if ps != [] {
      var d := Declaration(ps[0]);
      assert (ps + qs)[1..] == ps[1..] + qs;
      DeclareAppend(if d.Some? then acc[d.value.0 := d.value.1] else acc, ps[1..], qs);
    } else {
      assert ps + qs == qs;
    }
  }

  /** Style text joined by `;` parses as the first part's properties
      overridden by the second part's. */
  lemma ParseStylesAppend(a: string, b: string)
    ensures ParseStyles(a + ";" + b) == ParseStyles(a) + ParseStyles(b)
  {
    assert a + ";" + b == a + [';'] + b;
    SplitAppend(a, b, ';');
    DeclareAppend(map[], Split(a, ';'), Split(b, ';'));
    DeclareOver(ParseStyles(a), Split(b, ';'));
  }

  /** A single declaration without `;` sets exactly its own property. */
  lemma ParseSingleDeclaration(piece: string)
    requires ';' !in piece
    ensures ParseStyles(piece) ==
              if Declaration(piece).Some? then map[Declaration(piece).value.0 := Declaration(piece).value.1] else map[]
  {
    assert Split(piece, ';') == [piece];
    var d := Declaration(piece);
    var acc: map<string, string> := if d.Some? then map[][d.value.0 := d.value.1] else map[];
    assert Declare(map[], [piece]) == Declare(acc, [piece][1..]);
    assert [piece][1..] == [];
    if d.Some? {
      assert acc == map[d.value.0 := d.value.1];
    }
  }

  /** The inline styles of an entry: parsed when it has any, else none. */
  function ItemStyles(item: ContentItem): (m: map<string, string>)
    ensures !Given(item.styles) ==> m == map[]
    ensures Given(item.styles) ==> m == ParseStyles(item.styles.value)
  {
    if Given(item.styles) then ParseStyles(item.styles.value) else map[]
  }
}
