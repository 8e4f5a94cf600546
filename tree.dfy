/**
 * The PROPFIND response turned into a tree (carcass.js:697-760, carcass.old.js:703-766): each
 * extracted record is normalised into a resource object, the root is the resource with the
 * fewest path segments, and every other resource is linked to the collection whose href is
 * its parent path.
 */
module ResponseTree {
  import opened Base
  import opened Text
  import opened Js

  /** What the XPath queries extract from one `response` element. */
  datatype RawRecord = RawRecord(isCollection: bool, href: string, ctime: string, mtime: string,
                                 etag: string, mimeType: string, size: int)

  /** A resource's fields after normalisation; `None` is `null`. */
  datatype Record = Record(isCollection: bool, href: string, ctime: string, mtime: string,
                           etag: string, mimeType: Option<string>, size: Option<int>)

  /** `etag.replace(/(^")|("$)/g, '')`: one leading and then one trailing double quote removed. */
  function StripQuotes(s: string): string
  {
    var t := if s != [] && s[0] == '"' then s[1..] else s;
    if t != [] && t[|t| - 1] == '"' then t[..|t| - 1] else t
  }

  /** A quoted entity tag loses exactly its quotes; an unquoted one is kept as it is. */
  lemma StripQuotesInverse(x: string)
    ensures StripQuotes("\"" + x + "\"") == x
    ensures (x == [] || (x[0] != '"' && x[|x| - 1] != '"')) ==> StripQuotes(x) == x
  {
    var q := "\"" + x + "\"";
    assert q[1..] == x + "\"";
    assert (x + "\"")[..|x|] == x;
  }

  /**
   * One record as the client fills it: a collection or a plain resource, the etag without its
   * quotes, an empty mime type as `null`, and a size only on plain resources.
   */
  function Normalise(raw: RawRecord): (r: Record)
    ensures r.href == raw.href && r.isCollection == raw.isCollection
    ensures r.size.Some? <==> !raw.isCollection
    ensures r.mimeType.None? <==> raw.mimeType == ""
    ensures r.mimeType.Some? ==> r.mimeType.value == raw.mimeType
  {
    Record(raw.isCollection, raw.href, raw.ctime, raw.mtime, StripQuotes(raw.etag),
           if raw.mimeType == "" then None else Some(raw.mimeType),
           if raw.isCollection then None else Some(raw.size))
  }

  function Records(raws: seq<RawRecord>): (recs: seq<Record>)
    ensures |recs| == |raws|
    ensures forall i :: 0 <= i < |raws| ==> recs[i] == Normalise(raws[i])
  {
    if raws == [] then [] else Records(raws[..|raws| - 1]) + [Normalise(raws[|raws| - 1])]
  }

  // ---------------------------------------------------------------------------------------
  // Paths
  // ---------------------------------------------------------------------------------------

  /** `href.replace(/\/$/, '').split('/').length`. */
  function SegmentCount(href: string): nat
  {
    |Split(StripTrailingSlash(href))|
  }

  /** `tmp = href.replace(/\/$/, '').split('/'); tmp.pop(); tmp.join('/') + '/'`. */
  function ParentHref(href: string): string
  {
    var parts := Split(StripTrailingSlash(href));
    Join(parts[..|parts| - 1]) + "/"
  }

  /** The last segment of a path once a trailing slash is dropped. */
  function LastSegment(href: string): string
  {
    var parts := Split(StripTrailingSlash(href));
    parts[|parts| - 1]
  }

  /**
   * A path of one segment has parent `/`. A longer one is its parent path followed by its
   * last segment, which holds no slash.
   */
  lemma ParentHrefSplit(href: string)
    ensures '/' !in LastSegment(href)
    ensures SegmentCount(href) == 1 ==> ParentHref(href) == "/"
    ensures SegmentCount(href) >= 2 ==> StripTrailingSlash(href) == ParentHref(href) + LastSegment(href)
  {
    var s := StripTrailingSlash(href);
    var parts := Split(s);
    if |parts| >= 2 {
      JoinSnoc(parts);
      JoinSplit(s);
    } else {
      assert parts[..|parts| - 1] == [];
    }
  }

  /**
   * A child path, a collection path followed by one segment (with or without a trailing
   * slash), has that collection as its parent and one segment more.
   */
  lemma ParentOfChild(p: string, seg: string)
    requires p != [] && p[|p| - 1] == '/' && seg != [] && '/' !in seg
    ensures ParentHref(p + seg) == p && ParentHref(p + seg + "/") == p
    ensures SegmentCount(p + seg) == SegmentCount(p) + 1 && SegmentCount(p + seg + "/") == SegmentCount(p) + 1
  {
    var x := p[..|p| - 1];
    assert p == x + "/";
    assert StripTrailingSlash(p) == x;
    assert seg[|seg| - 1] in seg;
    assert StripTrailingSlash(p + seg) == x + "/" + seg;
    assert (p + seg + "/")[..|p + seg|] == p + seg;
    assert StripTrailingSlash(p + seg + "/") == x + "/" + seg;
    SplitSlashAppend(x, seg);
    var parts := Split(x) + [seg];
    assert parts[..|parts| - 1] == Split(x);
    JoinSplit(x);
  }

  lemma {:induction false} SlashCountAppend(a: string, b: string)
    ensures SlashCount(a + b) == SlashCount(a) + SlashCount(b)
  {
    if a != [] {
      SlashCountAppend(a[1..], b);
      assert (a + b)[1..] == a[1..] + b;
    } else {
      assert a + b == b;
    }
  }

  lemma {:induction false} SlashCountNone(a: string)
    requires '/' !in a
    ensures SlashCount(a) == 0
  {
    if a != [] {
      assert forall c :: c in a[1..] ==> c in a;
      SlashCountNone(a[1..]);
    }
  }

  /**
   * The parent of a path of two or more segments has one segment fewer, so following parents
   * from any href reaches a one-segment path, whose parent is `/`.
   */
  lemma ParentFewerSegments(href: string)
    requires SegmentCount(href) >= 2
    ensures SegmentCount(ParentHref(href)) == SegmentCount(href) - 1
  {
    var s := StripTrailingSlash(href);
    var parts := Split(s);
    var p := Join(parts[..|parts| - 1]);
    ParentHrefSplit(href);
    assert ParentHref(href) == p + "/";
    assert StripTrailingSlash(p + "/") == p by { assert (p + "/")[..|p + "/"| - 1] == p; }
    assert s == p + ("/" + LastSegment(href));
    SlashCountAppend(p, "/" + LastSegment(href));
    SlashCountNone(LastSegment(href));
    assert ("/" + LastSegment(href))[1..] == LastSegment(href);
  }

  // ---------------------------------------------------------------------------------------
  // The tree, as a specification over record positions
  // ---------------------------------------------------------------------------------------

  /** The first position of a least value among the first `n` of `cs` (the comparison is a strict `<`). */
  function FirstMin(cs: seq<nat>, n: nat): (r: nat)
    requires 0 < n <= |cs|
    ensures r < n
  {
    if n == 1 then 0
    else
      var r := FirstMin(cs, n - 1);
      if cs[n - 1] < cs[r] then n - 1 else r
  }

  /** The first minimum is a minimum, and every value before it is strictly greater. */
  lemma {:induction false} FirstMinIsFirstMinimum(cs: seq<nat>, n: nat)
    requires 0 < n <= |cs|
    ensures forall j :: 0 <= j < n ==> cs[FirstMin(cs, n)] <= cs[j]
    ensures forall j :: 0 <= j < FirstMin(cs, n) ==> cs[j] > cs[FirstMin(cs, n)]
  {
    if n > 1 {
      FirstMinIsFirstMinimum(cs, n - 1);
    }
  }

  function SegmentCounts(recs: seq<Record>): (cs: seq<nat>)
    ensures |cs| == |recs| && forall i :: 0 <= i < |recs| ==> cs[i] == SegmentCount(recs[i].href)
  {
    seq(|recs|, i requires 0 <= i < |recs| => SegmentCount(recs[i].href))
  }

  /**
   * The root among the first `n` records: a record of least segment count, the first one
   * when several tie.
   */
  function RootOf(recs: seq<Record>, n: nat): (r: nat)
    requires 0 < n <= |recs|
    ensures r < n
  {
    FirstMin(SegmentCounts(recs), n)
  }

  /** The root has the fewest segments, and every record before it has strictly more. */
  lemma RootOfMinimal(recs: seq<Record>, n: nat)
    requires 0 < n <= |recs|
    ensures forall j :: 0 <= j < n ==> SegmentCount(recs[RootOf(recs, n)].href) <= SegmentCount(recs[j].href)
    ensures forall j :: 0 <= j < RootOf(recs, n) ==> SegmentCount(recs[j].href) > SegmentCount(recs[RootOf(recs, n)].href)
  {
    FirstMinIsFirstMinimum(SegmentCounts(recs), n);
  }

  function Hrefs(recs: seq<Record>): (hs: seq<string>)
    ensures |hs| == |recs| && forall i :: 0 <= i < |recs| ==> hs[i] == recs[i].href
  {
    seq(|recs|, i requires 0 <= i < |recs| => recs[i].href)
  }

  /** The hrefs of the first `n + 1` records extend those of the first `n` by one. */
  lemma HrefsStep(recs: seq<Record>, n: nat)
    requires n < |recs|
    ensures Hrefs(recs)[..n + 1] == Hrefs(recs)[..n] + [recs[n].href]
    ensures Hrefs(recs)[..n + 1][..n] == Hrefs(recs)[..n]
  {
    var hs := Hrefs(recs);
    assert hs[..n + 1] == hs[..n] + [hs[n]];
  }

  /** `indexedResources[href] = resource` over the first `n` records: the last record with an href wins. */
  function IndexOf(recs: seq<Record>, n: nat): (m: map<string, nat>)
    requires n <= |recs|
    ensures forall h :: h in m ==> m[h] < n && recs[m[h]].href == h
  {
    if n == 0 then map[] else IndexOf(recs, n - 1)[recs[n - 1].href := n - 1]
  }

  /** Exactly the hrefs of the first `n` records are indexed. */
  lemma {:induction false} IndexOfKeys(recs: seq<Record>, n: nat)
    requires n <= |recs|
    ensures forall h :: h in IndexOf(recs, n) <==> h in Hrefs(recs)[..n]
  {
    if n > 0 {
      IndexOfKeys(recs, n - 1);
      HrefsStep(recs, n - 1);
      assert forall h :: h in Hrefs(recs)[..n] <==> h in Hrefs(recs)[..n - 1] || h == recs[n - 1].href;
    }
  }

  /** The record an href is indexed under is its last occurrence. */
  lemma {:induction false} IndexOfLast(recs: seq<Record>, n: nat)
    requires n <= |recs|
    ensures forall h, j :: h in IndexOf(recs, n) && IndexOf(recs, n)[h] < j < n ==> recs[j].href != h
  {
    if n > 0 {
      IndexOfLast(recs, n - 1);
    }
  }

  /**
   * The keys left to link, in the order `for (r in unprocessedResources)` visits them: the
   * distinct hrefs in order of first appearance, without the root's.
   */
  function Pending(recs: seq<Record>): (ks: seq<string>)
    requires |recs| > 0
    ensures Distinct(ks)
    ensures forall h :: h in ks <==> h in Hrefs(recs) && h != recs[RootOf(recs, |recs|)].href
  {
    Without(FirstSeen(Hrefs(recs)), recs[RootOf(recs, |recs|)].href)
  }

  /** The parent of every key exists and is a collection. */
  ghost predicate Passed(recs: seq<Record>, index: map<string, nat>, keys: seq<string>)
  {
    forall h :: h in keys ==>
      h in index && ParentHref(h) in index && index[ParentHref(h)] < |recs| && recs[index[ParentHref(h)]].isCollection
  }

  /** The error the link loop stops with: the first key whose parent is missing or not a collection. */
  function LinkFailure(recs: seq<Record>, index: map<string, nat>, keys: seq<string>): (e: Option<Error>)
    requires forall h :: h in index ==> index[h] < |recs|
    ensures e.None? <==> forall h :: h in keys ==> ParentHref(h) in index && recs[index[ParentHref(h)]].isCollection
    ensures e.Some? ==> (e.value.MissingParent? || e.value.ParentNotCollection?) &&
                        e.value.href in keys && e.value.parentHref == ParentHref(e.value.href)
  {
    if keys == [] then None
    else
      var h := keys[0];
      var ph := ParentHref(h);
      assert forall x :: x in keys <==> x == h || x in keys[1..];
      if ph !in index then Some(MissingParent(h, ph))
      else if !recs[index[ph]].isCollection then Some(ParentNotCollection(h, ph))
      else LinkFailure(recs, index, keys[1..])
  }

  /** `LinkFailure` on a non-empty key list looks at the first key, then at the rest. */
  lemma LinkFailureFirst(recs: seq<Record>, index: map<string, nat>, keys: seq<string>)
    requires keys != [] && forall h :: h in index ==> index[h] < |recs|
    ensures var h := keys[0]; var ph := ParentHref(h);
            LinkFailure(recs, index, keys) ==
              if ph !in index then Some(MissingParent(h, ph))
              else if !recs[index[ph]].isCollection then Some(ParentNotCollection(h, ph))
              else LinkFailure(recs, index, keys[1..])
  {
  }

  /** The key at position `k` of a list without repeats is not among the keys before it or after it. */
  lemma DistinctAt(xs: seq<string>, k: nat)
    requires Distinct(xs) && k < |xs|
    ensures xs[k] !in xs[..k] && xs[k] !in xs[k + 1..]
  {
    assert forall j :: 0 <= j < k ==> xs[..k][j] == xs[j];
    var t := xs[k + 1..];
    forall j | 0 <= j < |t| ensures t[j] != xs[k] {
      assert t[j] == xs[k + 1 + j];
    }
  }

  /** The key at position `k` of a distinct list of indexed keys, as the linking loop takes it. */
  lemma NextKey(order: seq<string>, k: nat, idx: map<string, nat>)
    requires Distinct(order) && k < |order|
    requires forall h :: h in order ==> h in idx
    ensures order[k] in idx && order[k] !in order[..k]
    ensures order[..k + 1] == order[..k] + [order[k]]
  {
    DistinctAt(order, k);
  }

  /** The position of the parent of record `i` once the keys in `done` are linked, if it is linked. */
  ghost function ParentPosition(recs: seq<Record>, index: map<string, nat>, done: seq<string>, i: nat): Option<nat>
    requires i < |recs| && Passed(recs, index, done)
  {
    var h := recs[i].href;
    if h in done && index[h] == i then Some(index[ParentHref(h)]) else None
  }

  /** The positions of the children of record `p`, in the order they were linked. */
  ghost function ChildPositions(recs: seq<Record>, index: map<string, nat>, done: seq<string>, p: nat): (cs: seq<nat>)
    requires Passed(recs, index, done) && IndexSound(recs, index)
    ensures forall j :: 0 <= j < |cs| ==> cs[j] < |recs|
  {
    if done == [] then []
    else
      var h := done[|done| - 1];
      assert forall x :: x in done[..|done| - 1] ==> x in done;
      ChildPositions(recs, index, done[..|done| - 1], p) + (if index[ParentHref(h)] == p then [index[h]] else [])
  }

  /** A position is among the children of `p` exactly when its key is linked to `p`. */
  lemma {:induction false} ChildPositionsMember(recs: seq<Record>, index: map<string, nat>, done: seq<string>, p: nat, i: nat)
    requires Passed(recs, index, done) && IndexSound(recs, index)
    ensures i in ChildPositions(recs, index, done, p) <==> exists h :: h in done && index[h] == i && index[ParentHref(h)] == p
  {
    if done != [] {
      var pre := done[..|done| - 1];
      assert forall x :: x in done <==> x in pre || x == done[|done| - 1];
      ChildPositionsMember(recs, index, pre, p, i);
    }
  }

  /** Every key of the index names a record with that href. */
  ghost predicate IndexSound(recs: seq<Record>, index: map<string, nat>)
  {
    forall h :: h in index ==> index[h] < |recs| && recs[index[h]].href == h
  }

  /** A record is a child of `p` exactly when `p` is its parent. */
  lemma ChildIffParent(recs: seq<Record>, index: map<string, nat>, done: seq<string>, p: nat, i: nat)
    requires i < |recs| && Passed(recs, index, done) && IndexSound(recs, index)
    ensures i in ChildPositions(recs, index, done, p) <==> ParentPosition(recs, index, done, i) == Some(p)
  {
    ChildPositionsMember(recs, index, done, p, i);
    if i in ChildPositions(recs, index, done, p) {
      var h :| h in done && index[h] == i && index[ParentHref(h)] == p;
      assert recs[i].href == h;
    }
  }

  /** The index of a whole response is sound, and a successful link loop has passed every key. */
  lemma AssemblyIndex(recs: seq<Record>)
    requires |recs| > 0
    ensures IndexSound(recs, IndexOf(recs, |recs|))
    ensures LinkFailure(recs, IndexOf(recs, |recs|), Pending(recs)).None? ==> Passed(recs, IndexOf(recs, |recs|), Pending(recs))
    ensures forall h :: h in Pending(recs) ==> h in IndexOf(recs, |recs|)
  {
    assert Hrefs(recs)[..|recs|] == Hrefs(recs);
    IndexOfKeys(recs, |recs|);
  }

  predicate NoRepeats(xs: seq<nat>) { forall a, b :: 0 <= a < b < |xs| ==> xs[a] != xs[b] }

  /** Appending a new value to a list without repeats keeps it without repeats. */
  lemma NoRepeatsSnoc(xs: seq<nat>, x: nat)
    requires NoRepeats(xs) && x !in xs
    ensures NoRepeats(xs + [x])
  {
    var ds := xs + [x];
    forall a, b | 0 <= a < b < |ds| ensures ds[a] != ds[b] {
      assert ds[a] == xs[a];
      if b < |xs| {
        assert ds[b] == xs[b];
      }
    }
  }

  /** No object is pushed onto the same collection twice: a collection's children are distinct. */
  lemma {:induction false} ChildPositionsDistinct(recs: seq<Record>, index: map<string, nat>, done: seq<string>, p: nat)
    requires Passed(recs, index, done) && Distinct(done) && IndexSound(recs, index)
    ensures NoRepeats(ChildPositions(recs, index, done, p))
  {
    if done != [] {
      var pre := done[..|done| - 1];
      var h := done[|done| - 1];
      assert forall x :: x in pre ==> x in done;
      assert forall a :: 0 <= a < |pre| ==> pre[a] == done[a];
      ChildPositionsDistinct(recs, index, pre, p);
      var cs := ChildPositions(recs, index, pre, p);
      if index[ParentHref(h)] == p {
        forall g | g in pre
          ensures index[g] != index[h]
        {
          assert recs[index[g]].href == g && recs[index[h]].href == h;
        }
        ChildPositionsMember(recs, index, pre, p, index[h]);
        assert index[h] !in cs;
        assert ChildPositions(recs, index, done, p) == cs + [index[h]];
        NoRepeatsSnoc(cs, index[h]);
      } else {
        assert ChildPositions(recs, index, done, p) == cs;
      }
    }
  }

  /** Record `i`'s object points to the object indexed under its parent href once linked, else to nothing. */
  ghost predicate ParentLinked(recs: seq<Record>, resources: seq<Resource>, index: map<string, nat>, done: seq<string>, i: nat)
    requires i < |resources| == |recs| && Passed(recs, index, done)
    reads resources[i]
  {
    resources[i].parent == match ParentPosition(recs, index, done, i) case Some(p) => resources[p] case None => null
  }

  /** Record `i`'s object lists the objects of its linked children, in link order. */
  ghost predicate ChildrenLinked(recs: seq<Record>, resources: seq<Resource>, index: map<string, nat>, done: seq<string>, i: nat)
    requires i < |resources| == |recs| && Passed(recs, index, done) && IndexSound(recs, index)
    reads resources[i]
  {
    resources[i].children == Pick(resources, ChildPositions(recs, index, done, i))
  }

  /**
   * The resource objects after the keys in `done` are linked: each linked object points to
   * the object indexed under its parent href, and each collection lists its linked children.
   */
  ghost predicate LinkedState(recs: seq<Record>, resources: seq<Resource>, index: map<string, nat>, done: seq<string>)
    requires |resources| == |recs| && Passed(recs, index, done) && IndexSound(recs, index)
    reads resources
  {
    forall i :: 0 <= i < |recs| ==>
      ParentLinked(recs, resources, index, done, i) && ChildrenLinked(recs, resources, index, done, i)
  }

  /** Fresh objects, with no parent and no children, are the state before any key is linked. */
  lemma InitialLinked(recs: seq<Record>, resources: seq<Resource>, index: map<string, nat>)
    requires |resources| == |recs| && IndexSound(recs, index)
    requires forall j :: 0 <= j < |resources| ==> resources[j].parent == null && resources[j].children == []
    ensures LinkedState(recs, resources, index, [])
  {
    forall i | 0 <= i < |recs|
      ensures ParentLinked(recs, resources, index, [], i) && ChildrenLinked(recs, resources, index, [], i)
    {
    }
  }

  /** Appending a position appends its object. */
  lemma PickAppend(rs: seq<Resource>, ps: seq<nat>, x: nat)
    requires x < |rs| && forall j :: 0 <= j < |ps| ==> ps[j] < |rs|
    ensures Pick(rs, ps + [x]) == Pick(rs, ps) + [rs[x]]
  {
    assert (ps + [x])[..|ps|] == ps;
  }

  /** Linking key `h` gives the record indexed under it a parent and changes no other record's. */
  lemma ParentPositionStep(recs: seq<Record>, index: map<string, nat>, done: seq<string>, h: string, i: nat)
    requires i < |recs| && IndexSound(recs, index) && Passed(recs, index, done + [h]) && h !in done
    ensures Passed(recs, index, done)
    ensures ParentPosition(recs, index, done + [h], i) ==
            if i == index[h] then Some(index[ParentHref(h)]) else ParentPosition(recs, index, done, i)
  {
    assert forall x :: x in done ==> x in done + [h];
    assert forall x :: x in done + [h] <==> x in done || x == h;
  }

  /** Linking key `h` appends its record to the children of its parent and of no one else. */
  lemma ChildPositionsStep(recs: seq<Record>, index: map<string, nat>, done: seq<string>, h: string, p: nat)
    requires IndexSound(recs, index) && Passed(recs, index, done + [h])
    ensures Passed(recs, index, done)
    ensures ChildPositions(recs, index, done + [h], p) ==
            ChildPositions(recs, index, done, p) + (if index[ParentHref(h)] == p then [index[h]] else [])
  {
    assert forall x :: x in done ==> x in done + [h];
    assert (done + [h])[..|done + [h]| - 1] == done;
  }

  // ---------------------------------------------------------------------------------------
  // The resource objects and the assembly, as the handler runs it
  // ---------------------------------------------------------------------------------------

  /**
   * A `Resource` or `Collection` object. Only collections get a `children` array in the
   * JavaScript; here a plain resource keeps an empty one that nothing is ever pushed to.
   */
  class Resource {
    const record: Record
    var parent: Resource?
    var children: seq<Resource>

    constructor (record: Record)
      ensures this.record == record && parent == null && children == []
    {
      this.record := record;
      parent := null;
      children := [];
    }
  }

  /** The handler's `root` and `resources`. */
  datatype Assembled = Assembled(root: Resource, resources: seq<Resource>)

  /** The objects at the given positions. */
  function Pick(rs: seq<Resource>, ps: seq<nat>): (r: seq<Resource>)
    requires forall j :: 0 <= j < |ps| ==> ps[j] < |rs|
    ensures |r| == |ps| && forall j :: 0 <= j < |ps| ==> r[j] == rs[ps[j]]
  {
    if ps == [] then [] else Pick(rs, ps[..|ps| - 1]) + [rs[ps[|ps| - 1]]]
  }

  /** One more record: how the root, the index and the key order change. */
  lemma IndexStep(recs: seq<Record>, i: nat)
    requires i < |recs|
    ensures IndexOf(recs, i + 1) == IndexOf(recs, i)[recs[i].href := i]
    ensures recs[i].href in IndexOf(recs, i) <==> recs[i].href in FirstSeen(Hrefs(recs)[..i])
    ensures FirstSeen(Hrefs(recs)[..i + 1]) ==
            if recs[i].href in FirstSeen(Hrefs(recs)[..i]) then FirstSeen(Hrefs(recs)[..i])
            else FirstSeen(Hrefs(recs)[..i]) + [recs[i].href]
    ensures i > 0 ==> (RootOf(recs, i + 1) ==
                       if SegmentCount(recs[i].href) < SegmentCount(recs[RootOf(recs, i)].href) then i else RootOf(recs, i))
  {
    var hs := Hrefs(recs)[..i + 1];
    HrefsStep(recs, i);
    assert hs[..|hs| - 1] == Hrefs(recs)[..i] && hs[|hs| - 1] == recs[i].href;
    IndexOfKeys(recs, i);
  }

  /** The objects stored under each key of a position index. */
  function Objectify(resources: seq<Resource>, m: map<string, nat>): map<string, Resource>
    requires forall h :: h in m ==> m[h] < |resources|
  {
    map h | h in m :: resources[m[h]]
  }

  /** Storing position `i` under `h` stores the object at `i`. */
  lemma ObjectifyUpdate(resources: seq<Resource>, m: map<string, nat>, h: string, i: nat)
    requires i < |resources| && forall g :: g in m ==> m[g] < |resources|
    ensures Objectify(resources, m[h := i]) == Objectify(resources, m)[h := resources[i]]
  {
  }

  /** The first loop: one new object per record, in response order. */
  method CreateResources(raws: seq<RawRecord>) returns (resources: seq<Resource>)
    ensures Objects(Records(raws), resources)
    ensures forall j :: 0 <= j < |resources| ==>
              fresh(resources[j]) && resources[j].parent == null && resources[j].children == []
  {
    resources := [];
    for i := 0 to |raws|
      invariant |resources| == i
      invariant forall j :: 0 <= j < i ==> fresh(resources[j]) && resources[j].record == Records(raws)[j]
      invariant forall j :: 0 <= j < i ==> resources[j].parent == null && resources[j].children == []
      invariant forall j, k :: 0 <= j < k < i ==> resources[j] != resources[k]
    {
      var res := new Resource(Normalise(raws[i]));
      resources := resources + [res];
    }
  }

  /**
   * What `forEach` has built after the first `i` objects: the root so far (-1 before the
   * first), the index of the hrefs seen so far, and those hrefs in insertion order.
   */
  ghost predicate IndexedPrefix(recs: seq<Record>, resources: seq<Resource>, i: nat,
                                root: int, index: map<string, Resource>, order: seq<string>)
    requires i <= |recs| == |resources|
  {
    && (i == 0 ==> root == -1)
    && (i > 0 ==> root == RootOf(recs, i))
    && index == Objectify(resources, IndexOf(recs, i))
    && order == FirstSeen(Hrefs(recs)[..i])
  }

  /**
   * `resources.forEach(...)`: the root (-1 while there is none), the index by href, and the
   * keys of `unprocessedResources` in insertion order (it holds the same objects as the index).
   */
  method IndexResources(resources: seq<Resource>, ghost recs: seq<Record>)
    returns (root: int, index: map<string, Resource>, order: seq<string>)
    requires Objects(recs, resources)
    ensures root == -1 <==> recs == []
    ensures recs != [] ==> root == RootOf(recs, |recs|)
    ensures index == Objectify(resources, IndexOf(recs, |recs|))
    ensures order == FirstSeen(Hrefs(recs))
  {
    root := -1;
    index := map[];
    order := [];
    for i := 0 to |resources|
      invariant IndexedPrefix(recs, resources, i, root, index, order)
    {
      var href := resources[i].record.href;
      if root == -1 || SegmentCount(href) < SegmentCount(resources[root].record.href) {
        root := i;
      }
      if href !in index {
        order := order + [href];
      }
      index := index[href := resources[i]];
      assert IndexedPrefix(recs, resources, i + 1, root, index, order) by {
        assert href == recs[i].href;
        IndexStep(recs, i);
        ObjectifyUpdate(resources, IndexOf(recs, i), href, i);
      }
    }
    assert Hrefs(recs)[..|recs|] == Hrefs(recs);
  }

  /** One object per record, in response order, all distinct. */
  ghost predicate Objects(recs: seq<Record>, resources: seq<Resource>)
  {
    && |resources| == |recs|
    && (forall j :: 0 <= j < |recs| ==> resources[j].record == recs[j])
    && (forall j, k :: 0 <= j < k < |recs| ==> resources[j] != resources[k])
  }

  /**
   * One pass of the `for`-`in` body for key `h`: the object's `parent` becomes the object
   * indexed under the parent href, and the object is pushed onto that parent's `children`.
   * The push fails (`children` is undefined) when the parent is not a collection.
   */
  method Attach(resources: seq<Resource>, res: Resource, parent: Resource,
                ghost recs: seq<Record>, ghost idx: map<string, nat>, ghost done: seq<string>, ghost h: string)
    returns (ok: bool)
    modifies res, parent
    requires Objects(recs, resources) && IndexSound(recs, idx) && Passed(recs, idx, done) && h !in done
    requires h in idx && ParentHref(h) in idx
    requires res == resources[idx[h]] && parent == resources[idx[ParentHref(h)]]
    requires LinkedState(recs, resources, idx, done)
    ensures ok == recs[idx[ParentHref(h)]].isCollection
    ensures ok ==> Passed(recs, idx, done + [h]) && LinkedState(recs, resources, idx, done + [h])
  {
    ghost var pos := idx[h];
    ghost var pp := idx[ParentHref(h)];
    res.parent := parent;
    if !parent.record.isCollection {
      return false;
    }
    parent.children := parent.children + [res];
    assert Passed(recs, idx, done + [h]);
    forall i | 0 <= i < |recs|
      ensures ParentLinked(recs, resources, idx, done + [h], i)
    {
      ParentPositionStep(recs, idx, done, h, i);
      assert old(ParentLinked(recs, resources, idx, done, i));
      if i != pos {
        assert resources[i] != res;
      }
      if i != pp {
        assert resources[i] != parent;
      }
    }
    forall i | 0 <= i < |recs|
      ensures ChildrenLinked(recs, resources, idx, done + [h], i)
    {
      ChildPositionsStep(recs, idx, done, h, i);
      assert old(ChildrenLinked(recs, resources, idx, done, i));
      if i != pp {
        assert resources[i] != parent;
      } else {
        PickAppend(resources, ChildPositions(recs, idx, done, i), pos);
      }
    }
    ok := true;
  }

  /**
   * The link loop: for each key in order, set the object's `parent` to the object indexed under
   * the parent href and push it onto that object's `children`, then delete the key. It stops
   * at the first key whose parent is missing or is not a collection.
   */
  method Link(resources: seq<Resource>, index: map<string, Resource>, order0: seq<string>,
              ghost recs: seq<Record>, ghost idx: map<string, nat>)
    returns (failure: Option<Error>)
    modifies resources
    requires Objects(recs, resources) && IndexSound(recs, idx) && index == Objectify(resources, idx)
    requires Distinct(order0)
    requires forall h :: h in order0 ==> h in idx
    requires LinkedState(recs, resources, idx, [])
    ensures failure == LinkFailure(recs, idx, order0)
    ensures failure.None? ==> Passed(recs, idx, order0) && LinkedState(recs, resources, idx, order0)
  {
    failure := None;
    var order := order0;
    ghost var k := 0;
    while order != []
      invariant 0 <= k <= |order0| && order == order0[k..]
      invariant Passed(recs, idx, order0[..k])
      invariant LinkFailure(recs, idx, order0) == LinkFailure(recs, idx, order)
      invariant LinkedState(recs, resources, idx, order0[..k])
      decreases |order|
    {
      var h := order[0];
      ghost var done := order0[..k];
      NextKey(order0, k, idx);
      var res := index[h];
      assert res == resources[idx[h]] && res.record.href == h;
      var parentHref := ParentHref(res.record.href);
      if parentHref !in index {
        assert LinkFailure(recs, idx, order) == Some(MissingParent(h, parentHref)) by {
          LinkFailureFirst(recs, idx, order);
        }
        return Some(MissingParent(h, parentHref));
      }
      var parent := index[parentHref];
      var ok := Attach(resources, res, parent, recs, idx, done, h);
      if !ok {
        assert LinkFailure(recs, idx, order) == Some(ParentNotCollection(h, parentHref)) by {
          LinkFailureFirst(recs, idx, order);
        }
        return Some(ParentNotCollection(h, parentHref));
      }
      assert LinkFailure(recs, idx, order) == LinkFailure(recs, idx, order[1..]) by {
        LinkFailureFirst(recs, idx, order);
      }
      order := order[1..];
      k := k + 1;
    }
    assert order0[..k] == order0;
  }

  /**
   * The assembled tree over records `recs`: the objects are the records' in response order,
   * the root is the object of `RootOf` and has no parent, and once every pending key is
   * linked each object points to its parent and lists its children as `LinkedState` says.
   */
  ghost predicate Tree(recs: seq<Record>, a: Assembled)
    reads a.resources
  {
    && |recs| > 0
    && Objects(recs, a.resources)
    && a.root == a.resources[RootOf(recs, |recs|)]
    && a.root.parent == null
    && Passed(recs, IndexOf(recs, |recs|), Pending(recs))
    && LinkedState(recs, a.resources, IndexOf(recs, |recs|), Pending(recs))
  }

  /**
   * `delete(unprocessedResources[root.href])` and the link loop, given the objects, the root
   * position, and the index and key order the `forEach` built.
   */
  method LinkFromRoot(resources: seq<Resource>, root: nat, index: map<string, Resource>,
                      order: seq<string>, ghost recs: seq<Record>)
    returns (r: Result<Assembled, Error>)
    modifies resources
    requires |recs| > 0 && root == RootOf(recs, |recs|)
    requires Objects(recs, resources) && index == Objectify(resources, IndexOf(recs, |recs|))
    requires forall j :: 0 <= j < |resources| ==> resources[j].parent == null && resources[j].children == []
    requires order == FirstSeen(Hrefs(recs))
    ensures r.Err? <==> LinkFailure(recs, IndexOf(recs, |recs|), Pending(recs)).Some?
    ensures r.Err? ==> r.error == LinkFailure(recs, IndexOf(recs, |recs|), Pending(recs)).value
    ensures r.Ok? ==> r.value.resources == resources && Tree(recs, r.value)
  {
    ghost var idx := IndexOf(recs, |recs|);
    AssemblyIndex(recs);
    var rootHref := resources[root].record.href;
    var keys := Without(order, rootHref);
    assert keys == Pending(recs);

    InitialLinked(recs, resources, idx);
    var failure := Link(resources, index, keys, recs, idx);
    if failure.Some? {
      return Err(failure.value);
    }
    assert ParentLinked(recs, resources, idx, keys, root);
    assert ParentPosition(recs, idx, keys, root) == None;
    assert LinkFailure(recs, idx, Pending(recs)).None? && Passed(recs, idx, Pending(recs));
    r := Ok(Assembled(resources[root], resources));
  }

  /**
   * The `onreadystatechange` part of PROPFIND that builds the tree from the extracted
   * records. An empty response has no root; otherwise the first key in link order whose
   * parent is missing or is not a collection is the error, and on success the objects are
   * new and form the `Tree` of the normalised records.
   */
  method Assemble(raws: seq<RawRecord>) returns (r: Result<Assembled, Error>)
    ensures raws == [] <==> r == Err(EmptyResponse)
    ensures raws != [] ==> (r.Err? <==> LinkFailure(Records(raws), IndexOf(Records(raws), |raws|), Pending(Records(raws))).Some?)
    ensures raws != [] && r.Err? ==> r.error == LinkFailure(Records(raws), IndexOf(Records(raws), |raws|), Pending(Records(raws))).value
    ensures r.Ok? ==> (forall i :: 0 <= i < |r.value.resources| ==> fresh(r.value.resources[i])) && Tree(Records(raws), r.value)
  {
    ghost var recs := Records(raws);
    var resources := CreateResources(raws);
    var root, index, order := IndexResources(resources, recs);
    if root == -1 {
      return Err(EmptyResponse);
    }
    r := LinkFromRoot(resources, root, index, order, recs);
  }
}
