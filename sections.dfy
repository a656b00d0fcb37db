/**
 * Which navigation section is "active" (src/components/Navbar.tsx).
 *
 * The document is modelled as a map from element id to the element's bounding
 * rectangle: an id missing from the map is an element `getElementById` does
 * not find. Rectangle edges and the viewport height are exact reals.
 */
module Sections {

  /** The labels of the navigation menu, in declared order. */
  const MenuItems: seq<string> := ["Home", "About", "Projects", "Experience", "Contact"]

  /** The top and bottom edges of an element's bounding rectangle, in viewport pixels. */
  datatype Rect = Rect(top: real, bottom: real)

  /** The elements present in the page, by id. */
  type Document = map<string, Rect>

  /** ASCII lower-casing of one character; every other character is kept. */
  function LowerChar(c: char): char {
    if 'A' <= c <= 'Z' then (c - 'A' + 'a') as char else c
  }

  /** `toLowerCase` on the (ASCII) menu labels. */
  function Lower(s: string): string
  {
    seq(|s|, k requires 0 <= k < |s| => LowerChar(s[k]))
  }

  /** The section ids: each menu label lower-cased, in menu order. */
  function SectionIds(): seq<string>
  {
    seq(|MenuItems|, k requires 0 <= k < |MenuItems| => Lower(MenuItems[k]))
  }

  /** The reference line: 30% of the viewport height, measured from the top. */
  function ReferenceLine(innerHeight: real): real {
    innerHeight * 0.3
  }

  /** A rectangle straddles the reference line when its top is at or above it and its bottom at or below it. */
  predicate Straddles(r: Rect, innerHeight: real) {
    r.top <= ReferenceLine(innerHeight) && r.bottom >= ReferenceLine(innerHeight)
  }

  /** The section `id` is present in the document and straddles the reference line. */
  predicate Hit(doc: Document, innerHeight: real, id: string) {
    id in doc && Straddles(doc[id], innerHeight)
  }

  /** The specification of the active section: the first id, in list order, that is hit; `""` when none is. */
  function FirstHit(ids: seq<string>, doc: Document, innerHeight: real): string
  {
    if ids == [] then ""
    else if Hit(doc, innerHeight, ids[0]) then ids[0]
    else FirstHit(ids[1..], doc, innerHeight)
  }

  /**
   * handleScroll's search: walk the sections in menu order, skip the ones
   * without an element, stop at the first whose rectangle straddles the
   * reference line. The result is what handleScroll publishes.
   */
  method HandleScroll(doc: Document, innerHeight: real) returns (current: string)
    ensures current == FirstHit(SectionIds(), doc, innerHeight)
  {
    var sections := SectionIds();
    current := "";
    var i := 0;
    while i < |sections|
      invariant 0 <= i <= |sections|
      invariant current == ""
      invariant FirstHit(sections[i..], doc, innerHeight) == FirstHit(sections, doc, innerHeight)
    {
      var id := sections[i];
      if id !in doc {
        i := i + 1;
        continue;
      }
      var rect := doc[id];
      var offset := innerHeight * 0.3;
      if rect.top <= offset && rect.bottom >= offset {
        current := id;
        break;
      }
      i := i + 1;
    }
  }

  /** The chosen id is the first hit: every id at index `k` that is hit, with no hit before it, is the result. */
  lemma {:induction false} FirstHitPicksEarliest(ids: seq<string>, doc: Document, innerHeight: real, k: nat)
    requires k < |ids| && Hit(doc, innerHeight, ids[k])
    requires forall j :: 0 <= j < k ==> !Hit(doc, innerHeight, ids[j])
    ensures FirstHit(ids, doc, innerHeight) == ids[k]
  {
    if k > 0 {
      assert !Hit(doc, innerHeight, ids[0]);
      FirstHitPicksEarliest(ids[1..], doc, innerHeight, k - 1);
    }
  }

  /**
   * Conversely, a non-empty result is some id at an index `k` that is hit and
   * has no hit before it; so an absent element is never the result and a later
   * hit never wins over an earlier one.
   */
  lemma {:induction false} FirstHitIsHit(ids: seq<string>, doc: Document, innerHeight: real)
    ensures FirstHit(ids, doc, innerHeight) == ""
         || exists k :: 0 <= k < |ids| && ids[k] == FirstHit(ids, doc, innerHeight) && Hit(doc, innerHeight, ids[k])
                       && forall j :: 0 <= j < k ==> !Hit(doc, innerHeight, ids[j])
  {
    if ids != [] && !Hit(doc, innerHeight, ids[0]) {
      var r := FirstHit(ids, doc, innerHeight);
      FirstHitIsHit(ids[1..], doc, innerHeight);
      if r != "" {
        var k :| 0 <= k < |ids[1..]| && ids[1..][k] == r && Hit(doc, innerHeight, ids[1..][k])
                 && forall j :: 0 <= j < k ==> !Hit(doc, innerHeight, ids[1..][j]);
        assert ids[k + 1] == r;
        forall j | 0 <= j < k + 1 ensures !Hit(doc, innerHeight, ids[j]) {
          if j > 0 { assert ids[j] == ids[1..][j - 1]; }
        }
      }
    }
  }

  /** With no empty id in the list, the result is `""` exactly when no id is hit (the previous value is never kept). */
  lemma {:induction false} FirstHitEmptyIffNoHit(ids: seq<string>, doc: Document, innerHeight: real)
    requires forall k :: 0 <= k < |ids| ==> ids[k] != ""
    ensures FirstHit(ids, doc, innerHeight) == "" <==> forall k :: 0 <= k < |ids| ==> !Hit(doc, innerHeight, ids[k])
  {
    if ids != [] {
      FirstHitEmptyIffNoHit(ids[1..], doc, innerHeight);
      if !Hit(doc, innerHeight, ids[0]) {
        forall k | 0 <= k < |ids| && k > 0 ensures ids[k] == ids[1..][k - 1] { }
      }
    }
  }

  /** The result is `""` or one of the listed ids, and a listed id only if its element is present. */
  lemma {:induction false} FirstHitInRange(ids: seq<string>, doc: Document, innerHeight: real)
    ensures FirstHit(ids, doc, innerHeight) == "" || (FirstHit(ids, doc, innerHeight) in ids && FirstHit(ids, doc, innerHeight) in doc)
  {
    if ids != [] && !Hit(doc, innerHeight, ids[0]) {
      FirstHitInRange(ids[1..], doc, innerHeight);
    }
  }

  /** The lower-cased menu labels, label by label. */
  lemma LowerMenuItems()
    ensures Lower("Home") == "home" && Lower("About") == "about" && Lower("Projects") == "projects"
    ensures Lower("Experience") == "experience" && Lower("Contact") == "contact"
  {
  }

  /** The section ids are the lower-case menu labels, none of them empty, all of them distinct. */
  lemma SectionIdsValues()
    ensures SectionIds() == ["home", "about", "projects", "experience", "contact"]
    ensures forall k :: 0 <= k < |SectionIds()| ==> SectionIds()[k] != ""
    ensures forall j, k :: 0 <= j < k < |SectionIds()| ==> SectionIds()[j] != SectionIds()[k]
  {
    var ids := SectionIds();
    LowerMenuItems();
    assert ids == [ids[0], ids[1], ids[2], ids[3], ids[4]];
  }

  /** The published active section is `""` or one of the five section ids. */
  lemma ActiveSectionInRange(doc: Document, innerHeight: real)
    ensures FirstHit(SectionIds(), doc, innerHeight) == ""
         || FirstHit(SectionIds(), doc, innerHeight) in ["home", "about", "projects", "experience", "contact"]
  {
    SectionIdsValues();
    FirstHitInRange(SectionIds(), doc, innerHeight);
  }

  /** A menu label is highlighted (bold text) when its lower-cased form is the active section. */
  predicate Highlighted(activeSection: string, item: string) {
    activeSection == Lower(item)
  }

  /** A menu label is underlined when it is the active section's label or the hovered label. */
  predicate Underlined(activeSection: string, activeItem: string, item: string) {
    Highlighted(activeSection, item) || activeItem == item
  }

  /** At most one menu label is highlighted, whatever the active section. */
  lemma HighlightUnique(activeSection: string, j: nat, k: nat)
    requires j < |MenuItems| && k < |MenuItems|
    requires Highlighted(activeSection, MenuItems[j]) && Highlighted(activeSection, MenuItems[k])
    ensures j == k
  {
  }

  /** With nothing hovered, the underlined label is exactly the one at the index of the active section's id. */
  lemma UnderlineWithoutHover(activeSection: string, k: nat)
    requires k < |MenuItems|
    ensures Underlined(activeSection, "", MenuItems[k]) <==> activeSection == SectionIds()[k]
  {
  }

  /** With no active section and nothing hovered, no menu label is underlined. */
  lemma NoUnderlineWhenIdle(k: nat)
    requires k < |MenuItems|
    ensures !Underlined("", "", MenuItems[k])
  {
  }
}
