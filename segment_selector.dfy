/**
 * Segment selection (filename_filter): one pass over a directory listing that keeps, in listing
 * order, every path whose decoded window lies inside the requested one, and skips (logs) every
 * path whose name does not decode.
 */
module SegmentSelector {
  import opened Wrappers
  import opened SegmentNamer

  /** Containment: the window [from, to] encloses the segment [start, end]. Overlap is not enough. */
  predicate Contains(from: nat, to: nat, segment: (nat, nat)) {
    from <= segment.0 && segment.1 <= to
  }

  /** The test applied to one listed path. */
  predicate Selected(path: string, from: nat, to: nat) {
    var range := FilenameParse(path);
    range.Some? && Contains(from, to, range.value)
  }

  /** filename_filter over the listing that glob returned. */
  function FilenameFilter(paths: seq<string>, from: nat, to: nat): (kept: seq<string>)
    ensures forall p :: p in kept <==> p in paths && Selected(p, from, to)
    ensures |kept| <= |paths|
  {
    if paths == [] then []
    else (if Selected(paths[0], from, to) then [paths[0]] else []) + FilenameFilter(paths[1..], from, to)
  }

  /** `sub` is `s` with some elements dropped and the others kept in their order. */
  ghost predicate IsSubsequence(sub: seq<string>, s: seq<string>)
    decreases |s|
  {
    if sub == [] then true
    else if s == [] then false
    else (sub[0] == s[0] && IsSubsequence(sub[1..], s[1..])) || IsSubsequence(sub, s[1..])
  }

  /** The kept paths appear in the order of the listing. */
  lemma {:induction false} FilterKeepsListingOrder(paths: seq<string>, from: nat, to: nat)
    ensures IsSubsequence(FilenameFilter(paths, from, to), paths)
  {
    if paths != [] {
      var kept := FilenameFilter(paths, from, to);
      var rest := FilenameFilter(paths[1..], from, to);
      FilterKeepsListingOrder(paths[1..], from, to);
      if Selected(paths[0], from, to) {
        assert kept == [paths[0]] + rest;
        assert kept[1..] == rest;
      } else {
        assert kept == rest;
      }
    }
  }

  ghost predicate Distinct(s: seq<string>) {
    forall i, j :: 0 <= i < j < |s| ==> s[i] != s[j]
  }

  /** A listing without repeated names selects each name at most once. */
  lemma {:induction false} FilterKeepsDistinct(paths: seq<string>, from: nat, to: nat)
    requires Distinct(paths)
    ensures Distinct(FilenameFilter(paths, from, to))
  {
    if paths != [] {
      FilterKeepsDistinct(paths[1..], from, to);
      var rest := FilenameFilter(paths[1..], from, to);
      assert paths[0] !in paths[1..];
      assert paths[0] !in rest;
    }
  }

  /** Every copy of a selected path in the listing is kept, and no copy of any other path. */
  lemma {:induction false} FilterKeepsEveryCopy(paths: seq<string>, from: nat, to: nat)
    ensures forall p :: multiset(FilenameFilter(paths, from, to))[p]
                        == if Selected(p, from, to) then multiset(paths)[p] else 0
  {
    if paths != [] {
      var x := paths[0];
      var rest := FilenameFilter(paths[1..], from, to);
      FilterKeepsEveryCopy(paths[1..], from, to);
      assert paths == [x] + paths[1..];
      var whole := multiset([x]) + multiset(paths[1..]);
      assert multiset(paths) == whole;
      if Selected(x, from, to) {
        assert FilenameFilter(paths, from, to) == [x] + rest;
        assert multiset(FilenameFilter(paths, from, to)) == multiset([x]) + multiset(rest);
      } else {
        assert FilenameFilter(paths, from, to) == rest;
      }
    }
  }

  /** A stored segment is selected exactly when the window contains its range. */
  lemma SegmentSelectedIffContained(dir: string, from: nat, to: nat, segment: (nat, nat))
    ensures Selected(dir + "/" + FilenameMake(segment.0, segment.1), from, to) <==> Contains(from, to, segment)
  {
    ParseMake(dir, segment.0, segment.1);
  }

  lemma FilterOfThree(p1: string, p2: string, p3: string, from: nat, to: nat)
    requires !Selected(p1, from, to) && Selected(p2, from, to) && !Selected(p3, from, to)
    ensures FilenameFilter([p1, p2, p3], from, to) == [p2]
  {
    assert [p3][1..] == [];
    assert FilenameFilter([p3], from, to) == [];
    assert [p2, p3][1..] == [p3];
    assert FilenameFilter([p2, p3], from, to) == [p2];
    assert [p1, p2, p3][1..] == [p2, p3];
  }

  /**
   * Of three segments stored under one directory, a window keeps the one it contains and
   * skips the two that straddle its start and its end (0-3, 1-2, 2-3 for the window [1, 2]),
   * even though both overlap it.
   */
  lemma StraddlingSegmentsAreSkipped(dir: string, from: nat, to: nat, early: (nat, nat), inside: (nat, nat), late: (nat, nat))
    requires early.0 < from <= early.1
    requires Contains(from, to, inside)
    requires late.0 <= to < late.1
    ensures var p1, p2, p3 := dir + "/" + FilenameMake(early.0, early.1), dir + "/" + FilenameMake(inside.0, inside.1),
                              dir + "/" + FilenameMake(late.0, late.1);
            FilenameFilter([p1, p2, p3], from, to) == [p2]
  {
    SegmentSelectedIffContained(dir, from, to, early);
    SegmentSelectedIffContained(dir, from, to, inside);
    SegmentSelectedIffContained(dir, from, to, late);
    FilterOfThree(dir + "/" + FilenameMake(early.0, early.1), dir + "/" + FilenameMake(inside.0, inside.1),
                  dir + "/" + FilenameMake(late.0, late.1), from, to);
  }
}
