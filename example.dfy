/**
 * The shape of response the client is built for, worked through: a collection `p` holding a
 * resource `p + x` and a collection `p + y + "/"`, which holds a resource `p + y + "/" + z`
 * (for example `/a/`, `/a/b`, `/a/c/`, `/a/c/d`), listed in that order.
 */
module TreeExample {
  import opened Base
  import opened Text
  import opened Js
  import opened ResponseTree

  /** A segment: not empty and without a slash. */
  predicate Segment(s: string) { s != [] && '/' !in s }

  /** `recs` are the four records of the example, with `p` a collection path. */
  predicate Sample(recs: seq<Record>, p: string, x: string, y: string, z: string)
  {
    && p != [] && p[|p| - 1] == '/' && Segment(x) && Segment(y) && Segment(z)
    && |recs| == 4
    && recs[0].href == p && recs[1].href == p + x && recs[2].href == p + y + "/" && recs[3].href == p + y + "/" + z
    && recs[0].isCollection && recs[2].isCollection
  }

  /**
   * What the assembly needs to know of the example: four different hrefs, the first with the
   * fewest segments, records 1 and 2 under record 0 and record 3 under record 2, and records 0
   * and 2 collections.
   */
  predicate Shape(recs: seq<Record>)
  {
    && Linkable(recs)
    && (forall j :: 1 <= j < 4 ==> SegmentCount(recs[j].href) > SegmentCount(recs[0].href))
  }

  /** The part of `Shape` that linking depends on. */
  predicate Linkable(recs: seq<Record>)
  {
    && |recs| == 4
    && (forall i, j :: 0 <= i < j < 4 ==> recs[i].href != recs[j].href)
    && ParentHref(recs[1].href) == recs[0].href && ParentHref(recs[2].href) == recs[0].href
    && ParentHref(recs[3].href) == recs[2].href
    && recs[0].isCollection && recs[2].isCollection
  }

  /** The paths of the example: each has the expected parent and one segment more than it. */
  lemma SamplePaths(p: string, x: string, y: string, z: string)
    requires p != [] && p[|p| - 1] == '/' && Segment(x) && Segment(y) && Segment(z)
    ensures ParentHref(p + x) == p && SegmentCount(p + x) == SegmentCount(p) + 1
    ensures ParentHref(p + y + "/") == p && SegmentCount(p + y + "/") == SegmentCount(p) + 1
    ensures ParentHref(p + y + "/" + z) == p + y + "/" && SegmentCount(p + y + "/" + z) == SegmentCount(p) + 2
  {
    ParentOfChild(p, x);
    ParentOfChild(p, y);
    ParentOfChild(p + y + "/", z);
  }

  /** The four hrefs of the example are different. */
  lemma SampleDistinct(p: string, x: string, y: string, z: string)
    requires p != [] && p[|p| - 1] == '/' && Segment(x) && Segment(y) && Segment(z)
    ensures p + x != p + y + "/" + z
  {
    var a, b := p + x, p + y + "/" + z;
    if |a| == |b| {
      assert |y| < |x| && a[|p| + |y|] == x[|y|] && x[|y|] in x && b[|p| + |y|] == '/';
    }
  }

  /** The example's hrefs are pairwise different. */
  lemma SampleHrefsDistinct(recs: seq<Record>, p: string, x: string, y: string, z: string)
    requires Sample(recs, p, x, y, z)
    ensures forall i, j :: 0 <= i < j < 4 ==> recs[i].href != recs[j].href
  {
    SampleDistinct(p, x, y, z);
    var a, b, c, d := p, p + x, p + y + "/", p + y + "/" + z;
    assert |a| < |b| && |a| < |c| < |d|;
    assert b[|b| - 1] == x[|x| - 1] && x[|x| - 1] in x && c[|c| - 1] == '/';
    assert b != c && b != d;
  }

  /** Every record of the example after the first has more segments than it. */
  lemma SampleCounts(recs: seq<Record>, p: string, x: string, y: string, z: string)
    requires Sample(recs, p, x, y, z)
    ensures forall j :: 1 <= j < 4 ==> SegmentCount(recs[j].href) > SegmentCount(recs[0].href)
  {
    SamplePaths(p, x, y, z);
    var c := SegmentCount(p);
    CountsAbove(recs, c);
  }

  /** Segment counts `c`, `c + 1`, `c + 1`, `c + 2` put every later record below the first. */
  lemma CountsAbove(recs: seq<Record>, c: nat)
    requires |recs| == 4 && SegmentCount(recs[0].href) == c
    requires SegmentCount(recs[1].href) == c + 1 && SegmentCount(recs[2].href) == c + 1
    requires SegmentCount(recs[3].href) == c + 2
    ensures forall j :: 1 <= j < 4 ==> SegmentCount(recs[j].href) > SegmentCount(recs[0].href)
  {
    forall j | 1 <= j < 4 ensures SegmentCount(recs[j].href) > c {
      assert j == 1 || j == 2 || j == 3;
    }
  }

  /** The example has that shape. */
  lemma SampleShape(recs: seq<Record>, p: string, x: string, y: string, z: string)
    requires Sample(recs, p, x, y, z)
    ensures Shape(recs)
  {
    SamplePaths(p, x, y, z);
    SampleHrefsDistinct(recs, p, x, y, z);
    SampleCounts(recs, p, x, y, z);
  }

  /** When every later record has more segments than the first, the first is the root. */
  lemma RootFirst(recs: seq<Record>)
    requires |recs| > 0 && forall j :: 1 <= j < |recs| ==> SegmentCount(recs[j].href) > SegmentCount(recs[0].href)
    ensures RootOf(recs, |recs|) == 0
  {
    RootOfMinimal(recs, |recs|);
  }

  /** Removing the first element of a list without repeats leaves the rest. */
  lemma WithoutHead(xs: seq<string>)
    requires xs != [] && Distinct(xs)
    ensures Without(xs, xs[0]) == xs[1..]
  {
    var t := xs[1..];
    assert xs[0] !in t by {
      forall j | 0 <= j < |t| ensures t[j] != xs[0] { assert t[j] == xs[j + 1]; }
    }
    WithoutAbsent(t, xs[0]);
  }

  /** Removing what is not there changes nothing. */
  lemma {:induction false} WithoutAbsent(xs: seq<string>, x: string)
    requires x !in xs
    ensures Without(xs, x) == xs
  {
    if xs != [] {
      WithoutAbsent(xs[1..], x);
    }
  }

  /** The keys are linked in document order, the root's left out. */
  lemma ShapePending(recs: seq<Record>)
    requires Shape(recs)
    ensures RootOf(recs, 4) == 0
    ensures Pending(recs) == [recs[1].href, recs[2].href, recs[3].href]
  {
    RootFirst(recs);
    PendingAfterRoot(recs);
  }

  /** With four different hrefs and the first record as root, the other three are the keys. */
  lemma PendingAfterRoot(recs: seq<Record>)
    requires |recs| == 4 && forall i, j :: 0 <= i < j < 4 ==> recs[i].href != recs[j].href
    requires RootOf(recs, 4) == 0
    ensures Pending(recs) == [recs[1].href, recs[2].href, recs[3].href]
  {
    var hs := Hrefs(recs);
    assert Distinct(hs);
    FirstSeenDistinct(hs);
    WithoutHead(hs);
    assert hs[1..] == [recs[1].href, recs[2].href, recs[3].href];
  }

  /** Each href is indexed under its own record. */
  lemma ShapeIndex(recs: seq<Record>)
    requires |recs| == 4 && forall i, j :: 0 <= i < j < 4 ==> recs[i].href != recs[j].href
    ensures var m := IndexOf(recs, 4);
            && recs[0].href in m && m[recs[0].href] == 0 && recs[1].href in m && m[recs[1].href] == 1
            && recs[2].href in m && m[recs[2].href] == 2 && recs[3].href in m && m[recs[3].href] == 3
  {
    var m1 := IndexOf(recs, 1);
    var m2 := IndexOf(recs, 2);
    var m3 := IndexOf(recs, 3);
    var m4 := IndexOf(recs, 4);
    assert m1 == map[recs[0].href := 0];
    assert m2 == m1[recs[1].href := 1];
    assert m3 == m2[recs[2].href := 2];
    assert m4 == m3[recs[3].href := 3];
  }

  /** Every key's parent is indexed and is a collection, so the link loop does not stop. */
  lemma ShapeLinks(recs: seq<Record>)
    requires Shape(recs)
    ensures LinkFailure(recs, IndexOf(recs, 4), Pending(recs)) == None
  {
    ShapePending(recs);
    KeysLinked(recs, Pending(recs));
  }

  /** The three non-root keys each have a collection as their indexed parent. */
  lemma KeysLinked(recs: seq<Record>, ks: seq<string>)
    requires Linkable(recs) && ks == [recs[1].href, recs[2].href, recs[3].href]
    ensures LinkFailure(recs, IndexOf(recs, 4), ks) == None
  {
    ShapeIndex(recs);
    var m := IndexOf(recs, 4);
    assert ks[1..] == [recs[2].href, recs[3].href] && ks[1..][1..] == [recs[3].href];
    LinkFailureFirst(recs, m, ks);
    LinkFailureFirst(recs, m, ks[1..]);
    LinkFailureFirst(recs, m, ks[1..][1..]);
  }

  /** The root's key is not among the linked keys, so the root gets no parent. */
  lemma RootUnlinked(recs: seq<Record>, ks: seq<string>)
    requires Linkable(recs) && ks == [recs[1].href, recs[2].href, recs[3].href]
    requires Passed(recs, IndexOf(recs, 4), ks)
    ensures ParentPosition(recs, IndexOf(recs, 4), ks, 0) == None
  {
    assert recs[0].href !in ks;
  }

  /** Once all three keys are linked: records 1 and 2 hang under record 0, record 3 under record 2. */
  lemma LinkedParents(recs: seq<Record>, ks: seq<string>)
    requires Linkable(recs) && ks == [recs[1].href, recs[2].href, recs[3].href]
    requires Passed(recs, IndexOf(recs, 4), ks)
    ensures ParentPosition(recs, IndexOf(recs, 4), ks, 1) == Some(0)
    ensures ParentPosition(recs, IndexOf(recs, 4), ks, 2) == Some(0)
    ensures ParentPosition(recs, IndexOf(recs, 4), ks, 3) == Some(2)
  {
    ShapeIndex(recs);
  }

  /** The children of record `p` after linking three keys, key by key. */
  lemma ChildPositionsThree(recs: seq<Record>, m: map<string, nat>, h1: string, h2: string, h3: string, p: nat)
    requires IndexSound(recs, m) && Passed(recs, m, [h1, h2, h3])
    ensures ChildPositions(recs, m, [h1, h2, h3], p) ==
            (if m[ParentHref(h1)] == p then [m[h1]] else []) +
            (if m[ParentHref(h2)] == p then [m[h2]] else []) +
            (if m[ParentHref(h3)] == p then [m[h3]] else [])
  {
    assert [h1, h2, h3] == [h1, h2] + [h3];
    ChildPositionsStep(recs, m, [h1, h2], h3, p);
    ChildPositionsTwo(recs, m, h1, h2, p);
  }

  lemma ChildPositionsTwo(recs: seq<Record>, m: map<string, nat>, h1: string, h2: string, p: nat)
    requires IndexSound(recs, m) && Passed(recs, m, [h1, h2])
    ensures ChildPositions(recs, m, [h1, h2], p) ==
            (if m[ParentHref(h1)] == p then [m[h1]] else []) + (if m[ParentHref(h2)] == p then [m[h2]] else [])
  {
    assert [h1] == [] + [h1] && [h1, h2] == [h1] + [h2];
    ChildPositionsStep(recs, m, [h1], h2, p);
    ChildPositionsStep(recs, m, [], h1, p);
  }

  /** Once all three keys are linked: record 0 has children 1 and 2 in that order, record 2 has child 3. */
  lemma LinkedChildren(recs: seq<Record>, ks: seq<string>)
    requires Linkable(recs) && ks == [recs[1].href, recs[2].href, recs[3].href]
    requires Passed(recs, IndexOf(recs, 4), ks) && IndexSound(recs, IndexOf(recs, 4))
    ensures ChildPositions(recs, IndexOf(recs, 4), ks, 0) == [1, 2]
    ensures ChildPositions(recs, IndexOf(recs, 4), ks, 2) == [3]
    ensures ChildPositions(recs, IndexOf(recs, 4), ks, 1) == [] == ChildPositions(recs, IndexOf(recs, 4), ks, 3)
  {
    ShapeIndex(recs);
    var m := IndexOf(recs, 4);
    var h1, h2, h3 := recs[1].href, recs[2].href, recs[3].href;
    assert m[ParentHref(h1)] == 0 && m[ParentHref(h2)] == 0 && m[ParentHref(h3)] == 2;
    assert m[h1] == 1 && m[h2] == 2 && m[h3] == 3;
    ChildPositionsThree(recs, m, h1, h2, h3, 0);
    ChildPositionsThree(recs, m, h1, h2, h3, 1);
    ChildPositionsThree(recs, m, h1, h2, h3, 2);
    ChildPositionsThree(recs, m, h1, h2, h3, 3);
  }

  /**
   * The assembled tree of the example: the first record's object is the root, `b` and `c/`
   * hang under it in document order, and `d` hangs under `c/`.
   */
  lemma ShapeTreeParents(recs: seq<Record>, a: Assembled)
    requires |a.resources| == 4 && Linkable(recs) && RootOf(recs, 4) == 0 && Tree(recs, a)
    ensures a.root == a.resources[0] && a.root.parent == null
    ensures a.resources[1].parent == a.root && a.resources[2].parent == a.root
    ensures a.resources[3].parent == a.resources[2]
  {
    PendingAfterRoot(recs);
    var ks := Pending(recs);
    LinkedParents(recs, ks);
    RootUnlinked(recs, ks);
    var rs, m := a.resources, IndexOf(recs, 4);
    assert ParentLinked(recs, rs, m, ks, 1) && ParentLinked(recs, rs, m, ks, 2) && ParentLinked(recs, rs, m, ks, 3);
  }

  /** The children arrays of the example's collections, in document order. */
  lemma ShapeTreeChildren(recs: seq<Record>, a: Assembled)
    requires |a.resources| == 4 && Linkable(recs) && RootOf(recs, 4) == 0 && Tree(recs, a)
    ensures a.resources[0].children == [a.resources[1], a.resources[2]]
    ensures a.resources[2].children == [a.resources[3]]
  {
    PendingAfterRoot(recs);
    LinkedChildren(recs, Pending(recs));
    ChildrenAt(recs, a, 0);
    ChildrenAt(recs, a, 2);
    PickTwo(a.resources, 1, 2);
    PickOne(a.resources, 3);
  }

  /** The objects at one position. */
  lemma PickOne(rs: seq<Resource>, i: nat)
    requires i < |rs|
    ensures Pick(rs, [i]) == [rs[i]]
  {
    var r := Pick(rs, [i]);
    assert |r| == 1 && r[0] == rs[i];
  }

  /** The objects at two positions. */
  lemma PickTwo(rs: seq<Resource>, i: nat, j: nat)
    requires i < |rs| && j < |rs|
    ensures Pick(rs, [i, j]) == [rs[i], rs[j]]
  {
    var r := Pick(rs, [i, j]);
    assert |r| == 2 && r[0] == rs[i] && r[1] == rs[j];
  }

  /** In an assembled tree, each object's children are those of its record's linked children. */
  lemma ChildrenAt(recs: seq<Record>, a: Assembled, i: nat)
    requires Tree(recs, a) && i < |recs|
    ensures IndexSound(recs, IndexOf(recs, |recs|))
    ensures a.resources[i].children == Pick(a.resources, ChildPositions(recs, IndexOf(recs, |recs|), Pending(recs), i))
  {
    AssemblyIndex(recs);
    assert ChildrenLinked(recs, a.resources, IndexOf(recs, |recs|), Pending(recs), i);
  }

  /** The example's plain resources have no children. */
  lemma ShapeTreeLeaves(recs: seq<Record>, a: Assembled)
    requires |a.resources| == 4 && Linkable(recs) && RootOf(recs, 4) == 0 && Tree(recs, a)
    ensures a.resources[1].children == [] && a.resources[3].children == []
  {
    PendingAfterRoot(recs);
    var ks := Pending(recs);
    AssemblyIndex(recs);
    LinkedChildren(recs, ks);
    var rs, m := a.resources, IndexOf(recs, 4);
    assert ChildrenLinked(recs, rs, m, ks, 1) && ChildrenLinked(recs, rs, m, ks, 3);
  }

  /** The records `/a/`, `/a/b`, `/a/c/`, `/a/c/d` are an instance of the example. */
  lemma Literal(recs: seq<Record>)
    requires |recs| == 4 && recs[0].isCollection && recs[2].isCollection
    requires recs[0].href == "/a/" && recs[1].href == "/a/b" && recs[2].href == "/a/c/" && recs[3].href == "/a/c/d"
    ensures Sample(recs, "/a/", "b", "c", "d")
  {
    assert "/a/" + "b" == "/a/b" && "/a/" + "c" + "/" == "/a/c/" && "/a/" + "c" + "/" + "d" == "/a/c/d";
  }

  /** The example assembles without error, rooted at its first record. */
  lemma SampleLinks(recs: seq<Record>, p: string, x: string, y: string, z: string)
    requires Sample(recs, p, x, y, z)
    ensures RootOf(recs, |recs|) == 0
    ensures LinkFailure(recs, IndexOf(recs, |recs|), Pending(recs)) == None
  {
    SampleShape(recs, p, x, y, z);
    ShapePending(recs);
    ShapeLinks(recs);
  }

  /** The example's assembled tree, object by object. */
  lemma SampleTree(recs: seq<Record>, p: string, x: string, y: string, z: string, a: Assembled)
    requires |a.resources| == 4 && Sample(recs, p, x, y, z) && Tree(recs, a)
    ensures a.root == a.resources[0] && a.root.parent == null
    ensures a.resources[1].parent == a.root && a.resources[2].parent == a.root
    ensures a.resources[3].parent == a.resources[2]
    ensures a.root.children == [a.resources[1], a.resources[2]] && a.resources[2].children == [a.resources[3]]
    ensures a.resources[1].children == [] && a.resources[3].children == []
  {
    SampleShape(recs, p, x, y, z);
    ShapePending(recs);
    ShapeTreeParents(recs, a);
    ShapeTreeChildren(recs, a);
    ShapeTreeLeaves(recs, a);
  }
}
