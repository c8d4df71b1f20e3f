/** The version-4 UUID generator of `scripts/generate-uuid.js`: every `x` of
    the template becomes a random hexadecimal digit and the `y` becomes one of
    `8`, `9`, `a`, `b`. The random source is an input here: the sequence of
    nibbles (`Math.random() * 16 | 0`) drawn for the template's placeholders,
    left to right. The layout follows section 4.4 of RFC 4122 (version
    nibble 4) and section 4.1.1 (variant bits 10). */
module Uuid {

  /** A value of `Math.random() * 16 | 0`. */
  type Nibble = x: int | 0 <= x < 16

  const Template: string := "xxxxxxxx-xxxx-4xxx-yxxx-xxxxxxxxxxxx"

  /** The number of placeholders in `Template`. */
  const SlotCount: nat := 31

  /** The placeholder characters the regular expression `/[xy]/g` matches. */
  predicate IsSlot(c: char) {
    c == 'x' || c == 'y'
  }

  predicate IsLowerHex(c: char) {
    ('0' <= c <= '9') || ('a' <= c <= 'f')
  }

  /** `v.toString(16)` for a single hexadecimal digit. */
  function HexDigit(v: Nibble): (c: char)
    ensures IsLowerHex(c)
  {
    if v < 10 then (v + 48) as char else (v - 10 + 97) as char
  }

  /** The value of a lower-case hexadecimal digit. */
  function HexValue(c: char): Nibble
    requires IsLowerHex(c)
  {
    if c <= '9' then c as int - 48 else c as int - 97 + 10
  }

  lemma HexRoundTrip(v: Nibble)
    ensures HexValue(HexDigit(v)) == v
  {
  }

  /** `r & 0x3 | 0x8`: the two low bits of `r` under the variant bits `10`. */
  function Variant(r: Nibble): (v: Nibble)
    ensures 8 <= v <= 11
    ensures v % 4 == r % 4
  {
    r % 4 + 8
  }

  /** The replacement of one placeholder. */
  function Substitute(c: char, r: Nibble): char
    requires IsSlot(c)
  {
    HexDigit(if c == 'x' then r else Variant(r))
  }

  /** The number of placeholders in `t`. */
  function Slots(t: string): nat
    decreases |t|
  {
    if t == [] then 0 else Slots(t[..|t| - 1]) + (if IsSlot(t[|t| - 1]) then 1 else 0)
  }

  /** `t.replace(/[xy]/g, ...)` with the placeholders consuming `ns` in order:
      the placeholder at position `p` receives the nibble numbered by the
      placeholders before it; every other character stays. */
  function Fill(t: string, ns: seq<Nibble>): (r: string)
    requires |ns| == Slots(t)
    ensures |r| == |t|
    ensures forall p :: 0 <= p < |t| && !IsSlot(t[p]) ==> r[p] == t[p]
    ensures forall p :: 0 <= p < |t| && IsSlot(t[p]) ==>
              Slots(t[..p]) < |ns| && r[p] == Substitute(t[p], ns[Slots(t[..p])])
    decreases |t|
  {
    if t == [] then []
    else
      var init := t[..|t| - 1];
      var c := t[|t| - 1];
      assert forall p :: 0 <= p < |init| ==> init[..p] == t[..p];
      assert t[..|t| - 1] == init;
      if IsSlot(c) then
        Fill(init, ns[..|ns| - 1]) + [Substitute(c, ns[|ns| - 1])]
      else
        Fill(init, ns) + [c]
  }

  /** The character of the template at position `p`. */
  function TemplateChar(p: nat): char {
    if p == 8 || p == 13 || p == 18 || p == 23 then '-'
    else if p == 14 then '4'
    else if p == 19 then 'y'
    else 'x'
  }

  lemma TemplateLayout()
    ensures |Template| == 36
    ensures forall p :: 0 <= p < 36 ==> Template[p] == TemplateChar(p)
  {
  }

  /** The placeholder number of template position `p`: the positions before
      it less the four dashes and the version digit among them. */
  function SlotIndex(p: nat): nat
    requires p < 36 && IsSlot(TemplateChar(p))
  {
    p - (if p > 8 then 1 else 0) - (if p > 13 then 1 else 0) - (if p > 14 then 1 else 0)
      - (if p > 18 then 1 else 0) - (if p > 23 then 1 else 0)
  }

  /** The template position of placeholder `k`, the inverse of `SlotIndex`. */
  function SlotPosition(k: nat): (p: nat)
    requires k < SlotCount
    ensures p < 36 && IsSlot(TemplateChar(p)) && SlotIndex(p) == k
  {
    if k < 8 then k
    else if k < 12 then k + 1
    else if k < 15 then k + 3
    else if k == 15 then 19
    else if k < 19 then k + 4
    else k + 5
  }

  /** Counting placeholders along the template agrees with `SlotIndex`. */
  lemma {:induction false} TemplateSlots(p: nat)
    requires p <= 36
    ensures Slots(Template[..p]) ==
              p - (if p > 8 then 1 else 0) - (if p > 13 then 1 else 0) - (if p > 14 then 1 else 0)
                - (if p > 18 then 1 else 0) - (if p > 23 then 1 else 0)
    decreases p
  {
    TemplateLayout();
    if p > 0 {
      TemplateSlots(p - 1);
      assert Template[..p][..p - 1] == Template[..p - 1];
      assert Template[..p][p - 1] == TemplateChar(p - 1);
    }
  }

  /** What filling the template puts at each position. */
  lemma FillTemplate(ns: seq<Nibble>)
    requires |ns| == SlotCount
    ensures Slots(Template) == SlotCount
    ensures |Fill(Template, ns)| == 36
    ensures forall p :: 0 <= p < 36 && !IsSlot(TemplateChar(p)) ==> Fill(Template, ns)[p] == TemplateChar(p)
    ensures forall p :: 0 <= p < 36 && IsSlot(TemplateChar(p)) ==>
              Fill(Template, ns)[p] == Substitute(TemplateChar(p), ns[SlotIndex(p)])
  {
    TemplateLayout();
    TemplateSlots(36);
    assert Template[..36] == Template;
    forall p | 0 <= p < 36 && IsSlot(TemplateChar(p)) ensures Slots(Template[..p]) == SlotIndex(p) {
      TemplateSlots(p);
    }
  }

  /** `generateUUID`, given the 31 nibbles it draws. */
  function GenerateUuid(ns: seq<Nibble>): (u: string)
    requires |ns| == SlotCount
    ensures |u| == 36
    ensures u[8] == '-' && u[13] == '-' && u[18] == '-' && u[23] == '-'
    ensures u[14] == '4'
    ensures u[19] in "89ab"
    ensures forall p :: 0 <= p < 36 && TemplateChar(p) == 'x' ==> u[p] == HexDigit(ns[SlotIndex(p)])
    ensures u[19] == HexDigit(Variant(ns[15]))
  {
    FillTemplate(ns);
    var u := Fill(Template, ns);
    assert u[19] == HexDigit(Variant(ns[15]));
    assert u[19] in "89ab" by {
      var v := Variant(ns[15]);
      assert v == 8 || v == 9 || v == 10 || v == 11;
    }
    u
  }

  /** A string has the layout of a generated UUID. */
  predicate IsUuidShape(u: string) {
    && |u| == 36
    && forall p :: 0 <= p < 36 ==> if IsSlot(TemplateChar(p)) then IsLowerHex(u[p]) else u[p] == TemplateChar(p)
  }

  /** The 31 digit values a UUID carries at the placeholder positions. */
  function DecodeUuid(u: string): (ns: seq<Nibble>)
    requires IsUuidShape(u)
    ensures |ns| == SlotCount
  {
    seq(SlotCount, k requires 0 <= k < SlotCount => HexValue(u[SlotPosition(k)]))
  }

  /** Reading the placeholders back gives the nibbles drawn, except that the
      variant position carries the nibble's two low bits under `10`. */
  lemma DecodeGenerate(ns: seq<Nibble>)
    requires |ns| == SlotCount
    ensures IsUuidShape(GenerateUuid(ns))
    ensures DecodeUuid(GenerateUuid(ns)) == ns[15 := Variant(ns[15])]
  {
    var u := GenerateUuid(ns);
    var d := DecodeUuid(u);
    forall k | 0 <= k < SlotCount ensures d[k] == ns[15 := Variant(ns[15])][k] {
      HexRoundTrip(if k == 15 then Variant(ns[15]) else ns[k]);
    }
  }

  /** Two draws give the same UUID exactly when they agree on every
      placeholder except the variant one, and there on the two low bits. */
  lemma UuidDeterminedByNibbles(ns: seq<Nibble>, ms: seq<Nibble>)
    requires |ns| == SlotCount && |ms| == SlotCount
    ensures GenerateUuid(ns) == GenerateUuid(ms) <==>
              (forall k :: 0 <= k < SlotCount && k != 15 ==> ns[k] == ms[k]) && ns[15] % 4 == ms[15] % 4
  {
    if GenerateUuid(ns) == GenerateUuid(ms) {
      SameUuidSameNibbles(ns, ms);
    }
    if (forall k :: 0 <= k < SlotCount && k != 15 ==> ns[k] == ms[k]) && ns[15] % 4 == ms[15] % 4 {
      SameNibblesSameUuid(ns, ms);
    }
  }

  /** Equal UUIDs come from draws that agree where the UUID shows them. */
  lemma SameUuidSameNibbles(ns: seq<Nibble>, ms: seq<Nibble>)
    requires |ns| == SlotCount && |ms| == SlotCount
    requires GenerateUuid(ns) == GenerateUuid(ms)
    ensures forall k :: 0 <= k < SlotCount && k != 15 ==> ns[k] == ms[k]
    ensures ns[15] % 4 == ms[15] % 4
  {
    DecodeGenerate(ns);
    DecodeGenerate(ms);
    var a, b := ns[15 := Variant(ns[15])], ms[15 := Variant(ms[15])];
    assert a == b;
    forall k | 0 <= k < SlotCount && k != 15 ensures ns[k] == ms[k] {
      assert ns[k] == a[k] && ms[k] == b[k];
    }
    assert Variant(ns[15]) == a[15] && Variant(ms[15]) == b[15];
  }

  /** Draws that agree where the UUID shows them give the same UUID. */
  lemma SameNibblesSameUuid(ns: seq<Nibble>, ms: seq<Nibble>)
    requires |ns| == SlotCount && |ms| == SlotCount
    requires forall k :: 0 <= k < SlotCount && k != 15 ==> ns[k] == ms[k]
    requires ns[15] % 4 == ms[15] % 4
    ensures GenerateUuid(ns) == GenerateUuid(ms)
  {
    var u, v := GenerateUuid(ns), GenerateUuid(ms);
    forall p | 0 <= p < 36 ensures u[p] == v[p] {
      if TemplateChar(p) == 'x' {
        assert SlotIndex(p) != 15;
      }
    }
  }
}
