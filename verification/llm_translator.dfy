/** The batching translator of `src/utils/llmTranslator.ts`.

    The chat-completion call is outside the model: `llm` stands for it and
    gives the reply's message content, or `None` when there is no client,
    the call throws, or the reply has no content. Batches run one after the
    other; `Promise.all` keeps each batch's results in input order, so the
    order of the results is the same either way. */
module LlmTranslator {
  import opened Results
  import opened Text

  const BatchSize: nat := 5

  /** The demo translations, in the order `Object.entries` lists them. */
  const DemoTable: seq<(string, string)> := [
    ("A Case of Identity", "身份案"),
    ("My dear fellow", "亲爱的朋友"),
    ("Sherlock Holmes", "夏洛克·福尔摩斯"),
    ("Baker Street", "贝克街"),
    ("life is infinitely stranger", "生活比想象中要奇妙得多"),
    ("the mind of man", "人类的思维"),
    ("strange coincidences", "奇怪的巧合"),
    ("the cases which come to light", "被揭露的案件"),
    ("as a rule", "通常"),
    ("bald enough", "足够直白"),
    ("vulgar enough", "足够庸俗")
  ]

  /** Texts this long or longer never consult the demo table. */
  const DemoLimit: nat := 50

  const FallbackPrefix: string := "[中文翻译: "
  const FallbackSuffix: string := "...]"

  /** `text.toLowerCase().includes(key.toLowerCase())`. */
  predicate ContainsFolded(text: string, key: string) {
    Contains(Lower(text), Lower(key))
  }

  /** `text` starts with `key`, letter case aside. */
  predicate StartsFolded(text: string, key: string) {
    |key| <= |text| && Lower(text[..|key|]) == Lower(key)
  }

  /** The first demo entry, from position `from` on, whose key occurs in
      `text` (letter case aside); `|DemoTable|` when none does. */
  function FirstDemoKey(text: string, from: nat): (j: nat)
    requires from <= |DemoTable|
    ensures from <= j <= |DemoTable|
    ensures forall k :: from <= k < j ==> !ContainsFolded(text, DemoTable[k].0)
    ensures j < |DemoTable| ==> ContainsFolded(text, DemoTable[j].0)
    decreases |DemoTable| - from
  {
    if from == |DemoTable| then from
    else if ContainsFolded(text, DemoTable[from].0) then from
    else FirstDemoKey(text, from + 1)
  }

  /** `text.replace(new RegExp(key, 'gi'), value)` for a key with no regular
      expression metacharacters: every occurrence of `key`, letter case
      aside, is replaced, scanning left to right without overlaps. */
  function ReplaceFolded(text: string, key: string, value: string): (r: string)
    requires key != ""
    decreases |text|
  {
    if text == [] then []
    else if StartsFolded(text, key) then value + ReplaceFolded(text[|key|..], key, value)
    else [text[0]] + ReplaceFolded(text[1..], key, value)
  }

  lemma StartsFoldedContains(text: string, key: string)
    requires StartsFolded(text, key)
    ensures ContainsFolded(text, key)
  {
    assert Lower(text)[..|key|] == Lower(text[..|key|]);
    assert StartsWith(Lower(text), Lower(key));
  }

  lemma ContainsFoldedTail(text: string, key: string)
    requires text != [] && ContainsFolded(text[1..], key)
    ensures ContainsFolded(text, key)
  {
    assert Lower(text)[1..] == Lower(text[1..]);
  }

  /** The replacement keeps the text before the first occurrence, puts the
      value in place of that occurrence, and carries on after it. */
  lemma {:induction false} ReplaceAtFirst(a: string, k: string, b: string, key: string, value: string)
    requires key != "" && |k| == |key| && Lower(k) == Lower(key)
    requires forall i :: 0 <= i < |a| ==> !StartsFolded((a + k + b)[i..], key)
    ensures ReplaceFolded(a + k + b, key, value) == a + value + ReplaceFolded(b, key, value)
    decreases |a|
  {
    var s := a + k + b;
    if a == [] {
      assert ReplaceFolded(s, key, value) == value + ReplaceFolded(b, key, value) by {
        assert s == k + b && s[..|key|] == k && s[|key|..] == b;
        assert StartsFolded(s, key);
      }
      assert a + value == value;
    } else {
      var s' := a[1..] + k + b;
      assert ReplaceFolded(s, key, value) == [a[0]] + ReplaceFolded(s', key, value) by {
        assert s[0..] == s;
        assert !StartsFolded(s, key);
        assert s[1..] == s';
      }
      assert forall i :: 0 <= i < |a[1..]| ==> !StartsFolded(s'[i..], key) by {
        forall i | 0 <= i < |a[1..]|
          ensures !StartsFolded(s'[i..], key)
        {
          assert s'[i..] == s[i + 1..];
        }
      }
      ReplaceAtFirst(a[1..], k, b, key, value);
      ConsConcat(a, value, ReplaceFolded(b, key, value));
    }
  }

  lemma ConsConcat(a: string, v: string, w: string)
    requires a != []
    ensures a + v + w == [a[0]] + (a[1..] + v + w)
  {
    assert a == [a[0]] + a[1..];
  }

  /** A text in which the key does not occur comes back unchanged. */
  lemma {:induction false} ReplaceWithoutMatch(text: string, key: string, value: string)
    requires key != "" && !ContainsFolded(text, key)
    ensures ReplaceFolded(text, key, value) == text
    decreases |text|
  {
    if text != [] {
      if StartsFolded(text, key) {
        StartsFoldedContains(text, key);
      } else {
        if ContainsFolded(text[1..], key) {
          ContainsFoldedTail(text, key);
        }
        ReplaceWithoutMatch(text[1..], key, value);
        assert text == [text[0]] + text[1..];
      }
    }
  }

  /** `c` matches no character of `key`, letter case aside. */
  predicate Foreign(c: char, key: string) {
    forall j :: 0 <= j < |key| ==> LowerChar(c) != LowerChar(key[j])
  }

  /** Every character of `value` is foreign to `key`. */
  predicate AllForeign(value: string, key: string) {
    forall i :: 0 <= i < |value| ==> Foreign(value[i], key)
  }

  /** A key occurs in a text iff it starts it or occurs in its tail. */
  lemma ContainsFoldedUnfold(text: string, key: string)
    requires text != []
    ensures ContainsFolded(text, key) <==> StartsFolded(text, key) || ContainsFolded(text[1..], key)
  {
    assert Lower(text)[1..] == Lower(text[1..]);
    if |key| <= |text| {
      assert Lower(text)[..|key|] == Lower(text[..|key|]);
    }
  }

  /** Up to the first inserted character, the replaced text is the text
      itself. */
  lemma {:induction false} ReplacePrefixKept(text: string, key: string, value: string, m: nat)
    requires key != "" && value != "" && AllForeign(value, key)
    requires m <= |ReplaceFolded(text, key, value)|
    ensures (forall i :: 0 <= i < m ==> !Foreign(ReplaceFolded(text, key, value)[i], key)) ==>
              m <= |text| && ReplaceFolded(text, key, value)[..m] == text[..m]
    decreases |text|
  {
    var r := ReplaceFolded(text, key, value);
    if m > 0 {
      if StartsFolded(text, key) {
        assert r[0] == value[0];
        assert Foreign(r[0], key);
      } else {
        var r' := ReplaceFolded(text[1..], key, value);
        assert r == [text[0]] + r';
        assert forall i :: 0 <= i < m - 1 ==> r'[i] == r[i + 1];
        ReplacePrefixKept(text[1..], key, value, m - 1);
        if forall i :: 0 <= i < m ==> !Foreign(r[i], key) {
          assert r[..m] == [text[0]] + r'[..m - 1];
          assert text[..m] == [text[0]] + text[1..][..m - 1];
        }
      }
    }
  }

  /** The replaced text never starts with the key. */
  lemma ReplaceNoMatchAtStart(text: string, key: string, value: string)
    requires key != "" && value != "" && AllForeign(value, key)
    ensures !StartsFolded(ReplaceFolded(text, key, value), key)
  {
    var r := ReplaceFolded(text, key, value);
    var m := |key|;
    if text == [] {
    } else if StartsFolded(text, key) {
      assert r == value + ReplaceFolded(text[m..], key, value);
      assert Foreign(r[0], key);
      if m <= |r| {
        assert Lower(r[..m])[0] == LowerChar(r[0]);
      }
    } else if m <= |r| {
      assert StartsFolded(r, key) ==> forall i :: 0 <= i < m ==> !Foreign(r[i], key) by {
        if StartsFolded(r, key) {
          forall i | 0 <= i < m
            ensures !Foreign(r[i], key)
          {
            assert LowerChar(r[i]) == Lower(r[..m])[i] == Lower(key)[i] == LowerChar(key[i]);
          }
        }
      }
      ReplacePrefixKept(text, key, value, m);
    }
  }

  /** Foreign characters in front of a text bring no new occurrence. */
  lemma {:induction false} ForeignPrefix(v: string, rest: string, key: string)
    requires key != "" && AllForeign(v, key) && !ContainsFolded(rest, key)
    ensures !ContainsFolded(v + rest, key)
    decreases |v|
  {
    if v == [] {
      assert v + rest == rest;
    } else {
      var t := v + rest;
      assert t[0] == v[0];
      if StartsFolded(t, key) {
        assert false;
      }
      assert t[1..] == v[1..] + rest;
      ForeignPrefix(v[1..], rest, key);
      ContainsFoldedUnfold(t, key);
    }
  }

  /** Replacing by a non-empty value none of whose characters matches a
      character of the key removes every occurrence of the key. */
  lemma {:induction false} ReplaceRemovesKey(text: string, key: string, value: string)
    requires key != "" && value != "" && AllForeign(value, key)
    ensures !ContainsFolded(ReplaceFolded(text, key, value), key)
    decreases |text|
  {
    var r := ReplaceFolded(text, key, value);
    if text == [] {
      assert !StartsWith(Lower(r), Lower(key));
    } else if StartsFolded(text, key) {
      ReplaceRemovesKey(text[|key|..], key, value);
      ForeignPrefix(value, ReplaceFolded(text[|key|..], key, value), key);
    } else {
      ReplaceRemovesKey(text[1..], key, value);
      ReplaceNoMatchAtStart(text, key, value);
      assert r[1..] == ReplaceFolded(text[1..], key, value);
      ContainsFoldedUnfold(r, key);
    }
  }

  /** The deterministic fallback of `translateText`: a short text that holds
      a demo key gets that key replaced, using only the first matching key in
      table order; any other text becomes a marked excerpt of at most 50
      code points. */
  function DemoTranslate(text: string): (r: string)
    ensures |text| < DemoLimit && FirstDemoKey(text, 0) < |DemoTable| ==>
              r == ReplaceFolded(text, DemoTable[FirstDemoKey(text, 0)].0, DemoTable[FirstDemoKey(text, 0)].1)
    ensures |text| < DemoLimit && FirstDemoKey(text, 0) < |DemoTable| ==>
              !ContainsFolded(r, DemoTable[FirstDemoKey(text, 0)].0)
    ensures (|text| >= DemoLimit || FirstDemoKey(text, 0) == |DemoTable|) ==>
              && StartsWith(r, FallbackPrefix)
              && EndsWith(r, FallbackSuffix)
              && |r| >= |FallbackPrefix| + |FallbackSuffix|
              && r[|FallbackPrefix|..|r| - |FallbackSuffix|] == text[..if |text| < DemoLimit then |text| else DemoLimit]
  {
    var j := FirstDemoKey(text, 0);
    if |text| < DemoLimit && j < |DemoTable| then
      DemoEntryReplaced(text, j);
      ReplaceFolded(text, DemoTable[j].0, DemoTable[j].1)
    else
      var excerpt := text[..if |text| < DemoLimit then |text| else DemoLimit];
      var r := FallbackPrefix + excerpt + FallbackSuffix;
      assert r[|FallbackPrefix|..|r| - |FallbackSuffix|] == excerpt;
      r
  }

  /** Characters below U+0080 only. */
  predicate Ascii(s: string) {
    forall i :: 0 <= i < |s| ==> s[i] as int < 128
  }

  /** Characters from U+0080 on only. */
  predicate NonAscii(s: string) {
    forall i :: 0 <= i < |s| ==> s[i] as int >= 128
  }

  lemma NonAsciiForeign(value: string, key: string)
    requires NonAscii(value) && Ascii(key)
    ensures AllForeign(value, key)
  {
  }

  /** The demo keys are English and their translations Chinese, so no
      translation shares a character with its key. */
  lemma DemoTableForeign(j: nat)
    requires j < |DemoTable|
    ensures DemoTable[j].0 != "" && DemoTable[j].1 != ""
    ensures AllForeign(DemoTable[j].1, DemoTable[j].0)
  {
    if j < 3 {
      DemoForeignA(j);
    } else if j < 6 {
      DemoForeignB(j);
    } else if j < 8 {
      DemoForeignC(j);
    } else {
      DemoForeignD(j);
    }
  }

  lemma DemoForeignA(j: nat)
    requires j < 3
    ensures DemoTable[j].0 != "" && DemoTable[j].1 != ""
    ensures AllForeign(DemoTable[j].1, DemoTable[j].0)
  {
    if j == 0 {
      NonAsciiForeign("身份案", "A Case of Identity");
    } else if j == 1 {
      NonAsciiForeign("亲爱的朋友", "My dear fellow");
    } else {
      NonAsciiForeign("夏洛克·福尔摩斯", "Sherlock Holmes");
    }
  }

  lemma DemoForeignB(j: nat)
    requires 3 <= j < 6
    ensures DemoTable[j].0 != "" && DemoTable[j].1 != ""
    ensures AllForeign(DemoTable[j].1, DemoTable[j].0)
  {
    if j == 3 {
      NonAsciiForeign("贝克街", "Baker Street");
    } else if j == 4 {
      NonAsciiForeign("生活比想象中要奇妙得多", "life is infinitely stranger");
    } else {
      NonAsciiForeign("人类的思维", "the mind of man");
    }
  }

  lemma DemoForeignC(j: nat)
    requires 6 <= j < 8
    ensures DemoTable[j].0 != "" && DemoTable[j].1 != ""
    ensures AllForeign(DemoTable[j].1, DemoTable[j].0)
  {
    if j == 6 {
      NonAsciiForeign("奇怪的巧合", "strange coincidences");
    } else {
      NonAsciiForeign("被揭露的案件", "the cases which come to light");
    }
  }

  lemma DemoForeignD(j: nat)
    requires 8 <= j < |DemoTable|
    ensures DemoTable[j].0 != "" && DemoTable[j].1 != ""
    ensures AllForeign(DemoTable[j].1, DemoTable[j].0)
  {
    if j == 8 {
      NonAsciiForeign("通常", "as a rule");
    } else if j == 9 {
      NonAsciiForeign("足够直白", "bald enough");
    } else {
      NonAsciiForeign("足够庸俗", "vulgar enough");
    }
  }

  /** Replacing with any demo entry removes its key. */
  lemma DemoEntryReplaced(text: string, j: nat)
    requires j < |DemoTable|
    ensures !ContainsFolded(ReplaceFolded(text, DemoTable[j].0, DemoTable[j].1), DemoTable[j].0)
  {
    DemoTableForeign(j);
    ReplaceRemovesKey(text, DemoTable[j].0, DemoTable[j].1);
  }

  /** `translateText`: the trimmed reply of the model when it is not empty,
      otherwise the demo fallback. The result is never empty. */
  function TranslateText(text: string, llm: string -> Option<string>): (r: string)
    ensures r != ""
    ensures llm(text).Some? && Trim(llm(text).value) != "" ==> r == Trim(llm(text).value)
    ensures (llm(text).None? || Trim(llm(text).value) == "") ==> r == DemoTranslate(text)
  {
    var reply := llm(text);
    if reply.Some? && Trim(reply.value) != "" then Trim(reply.value)
    else
      var r := DemoTranslate(text);
      DemoNonEmpty(text);
      r
  }

  lemma {:induction false} ReplaceNonEmpty(text: string, key: string, value: string)
    requires key != "" && value != "" && ContainsFolded(text, key)
    ensures ReplaceFolded(text, key, value) != ""
    decreases |text|
  {
    assert |Lower(key)| == |key| && |Lower(text)| == |text|;
  }

  lemma DemoNonEmpty(text: string)
    ensures DemoTranslate(text) != ""
  {
    var j := FirstDemoKey(text, 0);
    if |text| < DemoLimit && j < |DemoTable| {
      ReplaceNonEmpty(text, DemoTable[j].0, DemoTable[j].1);
    }
  }

  function Min(a: int, b: int): int {
    if a < b then a else b
  }

  /** `Math.round(a / b)` for `a >= 0`, `b > 0`, computed exactly: halves
      round up. */
  function RoundDiv(a: nat, b: nat): (q: nat)
    requires b > 0
    ensures q * b * 2 <= 2 * a + b < (q + 1) * b * 2
  {
    (2 * a + b) / (2 * b)
  }

  /** The progress reported after the slice that starts at `i` of `n` texts:
      `Math.min(100, Math.round((i + 5) / n * 100))`. */
  function Progress(i: nat, n: nat): (p: int)
    requires n > 0
    ensures 0 <= p <= 100
  {
    Min(100, RoundDiv(100 * (i + BatchSize), n))
  }

  /** Later slices never report less progress. */
  lemma ProgressMonotone(i: nat, j: nat, n: nat)
    requires n > 0 && i <= j
    ensures Progress(i, n) <= Progress(j, n)
  {
    var a, b := 100 * (i + BatchSize), 100 * (j + BatchSize);
    DivMonotone(2 * a + n, 2 * b + n, 2 * n);
  }

  lemma MulMonotone(x: int, y: int, c: nat)
    requires x <= y
    ensures x * c <= y * c
  {
    assert y * c - x * c == (y - x) * c;
  }

  lemma DivMonotone(x: nat, y: nat, d: nat)
    requires d > 0 && x <= y
    ensures x / d <= y / d
  {
    var qx, qy := x / d, y / d;
    assert d * qx + x % d == x;
    assert d * qy + y % d == y;
    assert qx * d < (qy + 1) * d;
    if qy + 1 <= qx {
      MulMonotone(qy + 1, qx, d);
    }
  }

  /** The slice that reaches the end of the texts reports exactly 100. */
  lemma ProgressAtEnd(i: nat, n: nat)
    requires n > 0 && n <= i + BatchSize
    ensures Progress(i, n) == 100
  {
    var a := 100 * (i + BatchSize);
    var q := RoundDiv(a, n);
    assert 2 * a + n >= 200 * n;
    if q + 1 <= 100 {
      MulMonotone(q + 1, 100, 2 * n);
    }
  }

  /** `texts.slice(i, i + 5)` for i = 0, 5, 10, ...: consecutive slices of
      five texts, the last possibly shorter. */
  function Slices(texts: seq<string>): (r: seq<seq<string>>)
    ensures |r| == (|texts| + BatchSize - 1) / BatchSize
    ensures forall j :: 0 <= j < |r| ==> 0 < |r[j]| <= BatchSize
    decreases |texts|
  {
    if texts == [] then []
    else
      var m := Min(BatchSize, |texts|);
      [texts[..m]] + Slices(texts[m..])
  }

  function Flatten(parts: seq<seq<string>>): seq<string> {
    if parts == [] then [] else parts[0] + Flatten(parts[1..])
  }

  /** The slices cover the texts exactly once, in order. */
  lemma {:induction false} FlattenSlices(texts: seq<string>)
    ensures Flatten(Slices(texts)) == texts
    decreases |texts|
  {
    if texts != [] {
      var m := Min(BatchSize, |texts|);
      FlattenSlices(texts[m..]);
      assert texts == texts[..m] + texts[m..];
    }
  }

  /** `translateBatch`: the texts are translated slice by slice; the results
      are the per-text translations in input order, and one progress value
      is reported per slice. */
  method TranslateBatch(texts: seq<string>, llm: string -> Option<string>)
    returns (results: seq<string>, reports: seq<int>)
    ensures |results| == |texts|
    ensures forall k :: 0 <= k < |texts| ==> results[k] == TranslateText(texts[k], llm)
    ensures |reports| == |Slices(texts)|
    ensures forall j :: 0 <= j < |reports| ==> reports[j] == Progress(BatchSize * j, |texts|)
    ensures forall j, m :: 0 <= j <= m < |reports| ==> reports[j] <= reports[m]
    ensures texts != [] ==> reports[|reports| - 1] == 100
  {
    var n := |texts|;
    results := [];
    reports := [];
    var i := 0;
    while i < n
      invariant i == BatchSize * |reports|
      invariant i <= n || (n > 0 && i - BatchSize < n)
      invariant |results| == Min(i, n)
      invariant forall k :: 0 <= k < |results| ==> results[k] == TranslateText(texts[k], llm)
      invariant forall j :: 0 <= j < |reports| ==> reports[j] == Progress(BatchSize * j, n)
    {
      var end := Min(i + BatchSize, n);
      var batch := texts[i..end];
      var batchResults := seq(|batch|, k requires 0 <= k < |batch| => TranslateText(batch[k], llm));
      TranslatedPrefix(texts, llm, results, batchResults, i, end);
      results := results + batchResults;
      reports := reports + [Progress(i, n)];
      i := i + BatchSize;
    }
    ReportsMonotone(reports, n);
    if n > 0 {
      ProgressAtEnd(BatchSize * (|reports| - 1), n);
    }
  }

  /** Appending the translations of `texts[i..end]` to those of the first
      `i` texts gives the translations of the first `end`. */
  lemma TranslatedPrefix(texts: seq<string>, llm: string -> Option<string>,
                         results: seq<string>, batchResults: seq<string>, i: nat, end: nat)
    requires i <= end <= |texts| && |results| == i && |batchResults| == end - i
    requires forall k :: 0 <= k < i ==> results[k] == TranslateText(texts[k], llm)
    requires forall k :: 0 <= k < end - i ==> batchResults[k] == TranslateText(texts[i..end][k], llm)
    ensures |results + batchResults| == end
    ensures forall k :: 0 <= k < end ==> (results + batchResults)[k] == TranslateText(texts[k], llm)
  {
    forall k | 0 <= k < end ensures (results + batchResults)[k] == TranslateText(texts[k], llm) {
      if k >= i {
        assert texts[i..end][k - i] == texts[k];
      }
    }
  }

  /** Progress values taken at consecutive slices never decrease. */
  lemma ReportsMonotone(reports: seq<int>, n: nat)
    requires n > 0 || reports == []
    requires forall j :: 0 <= j < |reports| ==> reports[j] == Progress(BatchSize * j, n)
    ensures forall j, m :: 0 <= j <= m < |reports| ==> reports[j] <= reports[m]
  {
    forall j, m | 0 <= j <= m < |reports| ensures reports[j] <= reports[m] {
      ProgressMonotone(BatchSize * j, BatchSize * m, n);
    }
  }
}
