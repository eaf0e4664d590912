/**
 The geo-region of a segment, the order on segment ids that reservations are sorted
 by, and the partition of a sorted request into regional groups.
 */
module Regions {
  import opened Collections
  import opened Tables

  /** In the order of their names: "apac" < "eu" < "us". */
  datatype Region = Apac | Eu | Us

  predicate Starts(id: string, a: char, b: char, c: char) {
    |id| >= 3 && id[0] == a && id[1] == b && id[2] == c
  }

  /** The prefixes "eu_", "us_" and "ap_", then the legacy prefixes that end in a dash. */
  function SegmentRegion(id: string): Region {
    if Starts(id, 'e', 'u', '_') then Eu
    else if Starts(id, 'u', 's', '_') then Us
    else if Starts(id, 'a', 'p', '_') then Apac
    else if Starts(id, 'U', 'S', '-') || Starts(id, 'u', 's', '-') then Us
    else if Starts(id, 'J', 'P', '-') || Starts(id, 'j', 'p', '-') then Apac
    else if Starts(id, 'A', 'P', '-') || Starts(id, 'a', 'p', '-') then Apac
    else if Starts(id, 'S', 'G', '-') || Starts(id, 's', 'g', '-') then Apac
    else if Starts(id, 'C', 'N', '-') || Starts(id, 'c', 'n', '-') then Apac
    else Eu
  }

  /** The prefixes of three characters that name a region; all other ids lie in Europe. */
  lemma RegionOfPrefix(id: string)
    ensures SegmentRegion(id) == Us <==> |id| >= 3 && id[..3] in {"us_", "US-", "us-"}
    ensures SegmentRegion(id) == Apac <==>
      |id| >= 3 && id[..3] in {"ap_", "JP-", "jp-", "AP-", "ap-", "SG-", "sg-", "CN-", "cn-"}
  {
    if |id| >= 3 {
      assert id[..3] == [id[0], id[1], id[2]];
    }
  }

  /** The string comparison of the source: by the first differing character, a prefix first. */
  predicate Less(a: string, b: string) {
    b != [] && (a == [] || a[0] < b[0] || (a[0] == b[0] && Less(a[1..], b[1..])))
  }

  lemma {:induction false} LessIsTotal(a: string, b: string)
    ensures a == b || Less(a, b) || Less(b, a)
    ensures !(Less(a, b) && Less(b, a)) && !Less(a, a)
  {
    if a != [] && b != [] && a[0] == b[0] {
      LessIsTotal(a[1..], b[1..]);
      assert a == [a[0]] + a[1..] && b == [b[0]] + b[1..];
    }
    if a != [] {
      LessIsTotal(a[1..], a[1..]);
    }
  }

  lemma {:induction false} LessIsTransitive(a: string, b: string, c: string)
    requires Less(a, b) && Less(b, c)
    ensures Less(a, c)
  {
    if a != [] && a[0] == b[0] == c[0] {
      LessIsTransitive(a[1..], b[1..], c[1..]);
    }
  }

  /** What sort.Slice by segment id promises; it does not fix the order of equal ids. */
  ghost predicate Sorted(ws: seq<Window>) {
    forall i, j :: 0 <= i < j < |ws| ==> !Less(ws[j].seg, ws[i].seg)
  }

  function Insert(w: Window, ws: seq<Window>): (r: seq<Window>)
    ensures multiset(r) == multiset(ws) + multiset{w}
  {
    if ws == [] || Less(w.seg, ws[0].seg) then [w] + ws
    else
      assert ws == [ws[0]] + ws[1..];
      [ws[0]] + Insert(w, ws[1..])
  }

  /** Stands for the library's sort. */
  function SortBySegment(ws: seq<Window>): (r: seq<Window>)
    ensures multiset(r) == multiset(ws)
  {
    if ws == [] then []
    else
      assert ws == [ws[0]] + ws[1..];
      Insert(ws[0], SortBySegment(ws[1..]))
  }

  lemma {:induction false} InsertKeepsSorted(w: Window, ws: seq<Window>)
    requires Sorted(ws)
    ensures Sorted(Insert(w, ws))
  {
    var r := Insert(w, ws);
    if ws == [] {
    } else if Less(w.seg, ws[0].seg) {
      forall j | 0 < j < |r| ensures !Less(r[j].seg, w.seg) {
        if Less(ws[j - 1].seg, w.seg) {
          LessIsTransitive(ws[j - 1].seg, w.seg, ws[0].seg);
          LessIsTotal(ws[0].seg, ws[0].seg);
        }
      }
    } else {
      InsertKeepsSorted(w, ws[1..]);
      var tail := Insert(w, ws[1..]);
      forall j | 0 < j < |r| ensures !Less(r[j].seg, r[0].seg) {
        assert r[j] in multiset(tail);
        if r[j] != w {
          assert r[j] in ws[1..];
        }
      }
    }
  }

  lemma {:induction false} SortBySegmentSorts(ws: seq<Window>)
    ensures Sorted(SortBySegment(ws))
  {
    if ws != [] {
      SortBySegmentSorts(ws[1..]);
      InsertKeepsSorted(ws[0], SortBySegment(ws[1..]));
    }
  }

  /** The windows of one region, in the order of the request; the region of an id is given by a map. */
  function GroupOf(f: string -> Region, ws: seq<Window>, region: Region): (g: seq<Window>)
    ensures forall w :: w in g <==> w in ws && f(w.seg) == region
  {
    if ws == [] then []
    else (if f(ws[0].seg) == region then [ws[0]] else []) + GroupOf(f, ws[1..], region)
  }

  lemma {:induction false} GroupOfAppended(f: string -> Region, ws: seq<Window>, w: Window, region: Region)
    ensures GroupOf(f, ws + [w], region) == GroupOf(f, ws, region) + (if f(w.seg) == region then [w] else [])
  {
    if ws == [] {
      assert ws + [w] == [w];
    } else {
      TailOfConcat(ws, [w]);
      GroupOfAppended(f, ws[1..], w, region);
      var first, last := if f(ws[0].seg) == region then [ws[0]] else [], if f(w.seg) == region then [w] else [];
      Associative(first, GroupOf(f, ws[1..], region), last);
    }
  }

  /** The keys of the grouping, in name order. */
  function InOrder(keys: set<Region>): (order: seq<Region>)
    ensures forall r :: r in order ==> r in keys
  {
    (if Apac in keys then [Apac] else []) + (if Eu in keys then [Eu] else []) + (if Us in keys then [Us] else [])
  }

  /** The regions a request touches. */
  function RegionsOf(f: string -> Region, ws: seq<Window>): set<Region> {
    set w | w in ws :: f(w.seg)
  }

  ghost predicate IsGrouping(f: string -> Region, groups: map<Region, seq<Window>>, ws: seq<Window>) {
    && groups.Keys == RegionsOf(f, ws)
    && forall r :: r in groups ==> groups[r] == GroupOf(f, ws, r)
  }

  /** The loop of groupByRegion, and its sorted list of keys. */
  method GroupByRegion(ws: seq<Window>) returns (groups: map<Region, seq<Window>>, order: seq<Region>)
    ensures IsGrouping(SegmentRegion, groups, ws) && order == InOrder(groups.Keys)
  {
    groups := map[];
    for i := 0 to |ws|
      invariant IsGrouping(SegmentRegion, groups, ws[..i])
    {
      var region := SegmentRegion(ws[i].seg);
      GroupingStep(SegmentRegion, groups, ws[..i], ws[i]);
      groups := groups[region := (if region in groups then groups[region] else []) + [ws[i]]];
      assert ws[..i + 1] == ws[..i] + [ws[i]];
    }
    assert ws[..|ws|] == ws;
    order := InOrder(groups.Keys);
  }

  lemma GroupingStep(f: string -> Region, groups: map<Region, seq<Window>>, ws: seq<Window>, w: Window)
    requires IsGrouping(f, groups, ws)
    ensures var region := f(w.seg);
      IsGrouping(f, groups[region := (if region in groups then groups[region] else []) + [w]], ws + [w])
  {
    var region := f(w.seg);
    var after := groups[region := (if region in groups then groups[region] else []) + [w]];
    assert after.Keys == RegionsOf(f, ws + [w]) by {
      assert RegionsOf(f, ws + [w]) == RegionsOf(f, ws) + {region};
    }
    forall r | r in after ensures after[r] == GroupOf(f, ws + [w], r) {
      GroupOfAppended(f, ws, w, r);
      if r !in groups {
        UntouchedRegionIsEmpty(f, ws, r);
      } else if r != region {
        assert GroupOf(f, ws, r) + [] == GroupOf(f, ws, r);
      }
    }
  }

  lemma UntouchedRegionIsEmpty(f: string -> Region, ws: seq<Window>, r: Region)
    requires r !in RegionsOf(f, ws)
    ensures GroupOf(f, ws, r) == []
  {
  }

  function Flatten(groups: seq<seq<Window>>): seq<Window> {
    if groups == [] then [] else groups[0] + Flatten(groups[1..])
  }

  lemma {:induction false} GroupsPartition(f: string -> Region, ws: seq<Window>)
    ensures multiset(ws) == multiset(GroupOf(f, ws, Apac)) + multiset(GroupOf(f, ws, Eu)) + multiset(GroupOf(f, ws, Us))
  {
    if ws != [] {
      assert ws == [ws[0]] + ws[1..];
      GroupsPartition(f, ws[1..]);
    }
  }
}
