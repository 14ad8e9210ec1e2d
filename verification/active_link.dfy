/** The active navigation link (script.js, `updateActiveNavLink`): which
    section the reader has scrolled to, and which menu anchor is marked. */
module ActiveLink {

  import opened Wrappers

  /** A `section` element with an `id`: the id and its `offsetTop`. */
  datatype Section = Section(id: string, top: int)

  /** A menu anchor other than the call-to-action link: its `href`
      attribute, if any, and whether it carries the `active` class. */
  datatype Anchor = Anchor(href: Option<string>, active: bool)

  /** Pixels before its top at which a section already counts as reached. */
  const Offset := 120

  predicate Reached(s: Section, scrollY: int)
  {
    scrollY >= s.top - Offset
  }

  /** The scan in document order: every reached section overwrites the
      current id, so the last reached one is left. */
  function Scan(sections: seq<Section>, scrollY: int, current: string): string
    decreases |sections|
  {
    if sections == [] then current
    else Scan(sections[1..], scrollY,
              if Reached(sections[0], scrollY) then sections[0].id else current)
  }

  function CurrentId(sections: seq<Section>, scrollY: int): string
  {
    Scan(sections, scrollY, "")
  }

  /** Reference choice: the index of the last reached section, if any. */
  function LastReached(sections: seq<Section>, scrollY: int): (r: Option<nat>)
    ensures r.Some? ==> r.value < |sections| && Reached(sections[r.value], scrollY)
    ensures r.Some? ==> forall j :: r.value < j < |sections| ==> !Reached(sections[j], scrollY)
    ensures r.None? ==> forall j :: 0 <= j < |sections| ==> !Reached(sections[j], scrollY)
    decreases |sections|
  {
    if sections == [] then None
    else if Reached(sections[|sections| - 1], scrollY) then Some(|sections| - 1)
    else LastReached(sections[..|sections| - 1], scrollY)
  }

  /** The id the reference choice names, `''` when nothing is reached. */
  function ChosenId(sections: seq<Section>, scrollY: int): string
  {
    match LastReached(sections, scrollY)
    case None => ""
    case Some(i) => sections[i].id
  }

  lemma {:induction false} ScanSnoc(sections: seq<Section>, s: Section, scrollY: int, current: string)
    ensures Scan(sections + [s], scrollY, current)
         == if Reached(s, scrollY) then s.id else Scan(sections, scrollY, current)
    decreases |sections|
  {
    if sections != [] {
      assert (sections + [s])[1..] == sections[1..] + [s];
      ScanSnoc(sections[1..], s, scrollY,
               if Reached(sections[0], scrollY) then sections[0].id else current);
    }
  }

  lemma {:induction false} ScanIsLastReached(sections: seq<Section>, scrollY: int, current: string)
    ensures Scan(sections, scrollY, current)
         == match LastReached(sections, scrollY)
            case None => current
            case Some(i) => sections[i].id
    decreases |sections|
  {
    if sections != [] {
      var init := sections[..|sections| - 1];
      var last := sections[|sections| - 1];
      assert sections == init + [last];
      ScanSnoc(init, last, scrollY, current);
      ScanIsLastReached(init, scrollY, current);
    }
  }

  /** The scan picks the last section in document order with
      `scrollY >= top - 120`, and `''` when there is none. */
  lemma CurrentIdIsLastReached(sections: seq<Section>, scrollY: int)
    ensures CurrentId(sections, scrollY) == ChosenId(sections, scrollY)
  {
    ScanIsLastReached(sections, scrollY, "");
  }

  function IndexOrMinus(r: Option<nat>): int
  {
    match r
    case None => -1
    case Some(i) => i
  }

  /** Scrolling further down never moves the choice to an earlier section.
      This holds whatever order the sections' tops are in. */
  lemma ChoiceMonotonic(sections: seq<Section>, y: int, y': int)
    requires y <= y'
    ensures IndexOrMinus(LastReached(sections, y)) <= IndexOrMinus(LastReached(sections, y'))
  {
    var r, r' := LastReached(sections, y), LastReached(sections, y');
    if r.Some? {
      assert Reached(sections[r.value], y');
    }
  }

  predicate SortedByTop(sections: seq<Section>)
  {
    forall i, j :: 0 <= i < j < |sections| ==> sections[i].top <= sections[j].top
  }

  /** With sections laid out top to bottom, the reached ones are exactly
      those up to the chosen one. */
  lemma SortedReachedPrefix(sections: seq<Section>, scrollY: int)
    requires SortedByTop(sections)
    ensures forall j :: 0 <= j < |sections| ==>
      (Reached(sections[j], scrollY) <==> j <= IndexOrMinus(LastReached(sections, scrollY)))
  {
    var r := LastReached(sections, scrollY);
    forall j | 0 <= j < |sections|
      ensures Reached(sections[j], scrollY) <==> j <= IndexOrMinus(r)
    {
      if r.Some? && j <= r.value {
        assert sections[j].top <= sections[r.value].top;
      }
    }
  }

  /** Every anchor is marked exactly when its `href` is `#` followed by the
      current id; hrefs are left alone. */
  function MarkAnchors(anchors: seq<Anchor>, current: string): (r: seq<Anchor>)
    ensures |r| == |anchors|
    ensures forall i :: 0 <= i < |r| ==> r[i].href == anchors[i].href
    ensures forall i :: 0 <= i < |r| ==> (r[i].active <==> anchors[i].href == Some("#" + current))
  {
    seq(|anchors|, i requires 0 <= i < |anchors| =>
      anchors[i].(active := anchors[i].href == Some("#" + current)))
  }

  predicate DistinctHrefs(anchors: seq<Anchor>)
  {
    forall i, j :: 0 <= i < j < |anchors| && anchors[i].href.Some? ==> anchors[i].href != anchors[j].href
  }

  /** With distinct hrefs, at most one anchor ends up marked. */
  lemma AtMostOneActive(anchors: seq<Anchor>, current: string)
    requires DistinctHrefs(anchors)
    ensures forall i, j :: 0 <= i < j < |anchors| ==>
      !(MarkAnchors(anchors, current)[i].active && MarkAnchors(anchors, current)[j].active)
  {
  }

  /** Marking twice for the same id is the same as marking once. */
  lemma MarkIdempotent(anchors: seq<Anchor>, current: string)
    ensures MarkAnchors(MarkAnchors(anchors, current), current) == MarkAnchors(anchors, current)
  {
  }

  /** Above every section the current id is `''`, so the only anchor that can
      be marked is one whose `href` is a bare `#`. */
  lemma NothingReachedMarksBareHash(sections: seq<Section>, anchors: seq<Anchor>, scrollY: int)
    requires forall j :: 0 <= j < |sections| ==> !Reached(sections[j], scrollY)
    ensures forall i :: 0 <= i < |anchors| ==>
      (MarkAnchors(anchors, CurrentId(sections, scrollY))[i].active <==> anchors[i].href == Some("#"))
  {
    CurrentIdIsLastReached(sections, scrollY);
    assert CurrentId(sections, scrollY) == "";
    assert "#" + "" == "#";
  }

  /** Three sections with tops 0, 800 and 1600. */
  const Sample := [Section("home", 0), Section("about", 800), Section("contact", 1600)]

  /** At 700 the second section is already reached (700 >= 800 - 120). */
  lemma SampleChoices()
    ensures CurrentId(Sample, -121) == ""
    ensures CurrentId(Sample, 0) == "home"
    ensures CurrentId(Sample, 679) == "home"
    ensures CurrentId(Sample, 680) == "about"
    ensures CurrentId(Sample, 700) == "about"
    ensures CurrentId(Sample, 850) == "about"
    ensures CurrentId(Sample, 1650) == "contact"
  {
  }
}
