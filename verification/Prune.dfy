/**
 Which container images of a registry to remove, and in which order: older builds of the main
 branch with the children that nothing else needs, children before the index that lists them.
 */
module Prune {
  import opened Bytes

  datatype Version = Version(id: int, digest: string, tags: seq<string>, created: int)

  /** The manifest lookup: what an image index lists, if the registry answers. */
  type Children = string -> Option<seq<string>>

  predicate IsEdge(v: Version) {
    v.tags != [] && forall i :: 0 <= i < |v.tags| ==> v.tags[i] == "edge" || "sha-" <= v.tags[i]
  }

  ghost predicate BuildTag(t: string) {
    t == "edge" || (|t| >= 4 && t[0] == 's' && t[1] == 'h' && t[2] == 'a' && t[3] == '-')
  }

  /** A build of the main branch is tagged, and with nothing but such tags. */
  lemma EdgeByTags(v: Version)
    ensures IsEdge(v) <==> v.tags != [] && forall t :: t in v.tags ==> BuildTag(t)
  {
    forall i | 0 <= i < |v.tags| ensures BuildTag(v.tags[i]) <==> v.tags[i] == "edge" || "sha-" <= v.tags[i] {
      BuildTagIs(v.tags[i]);
    }
    hide BuildTag;
    if forall t :: t in v.tags ==> BuildTag(t) {
      assert forall i :: 0 <= i < |v.tags| ==> v.tags[i] in v.tags;
    }
  }

  lemma BuildTagIs(t: string)
    ensures BuildTag(t) <==> t == "edge" || "sha-" <= t
  {
    assert |t| >= 4 ==> t[..4] == [t[0], t[1], t[2], t[3]];
    assert "sha-" <= t ==> "sha-" == t[..4];
  }

  /** Released, or carrying a tag that is not recognised. */
  predicate IsRelease(v: Version) { v.tags != [] && !IsEdge(v) }

  // ----- newest first

  predicate Newer(a: Version, b: Version) {
    a.created > b.created || (a.created == b.created && a.id > b.id)
  }

  predicate NewestFirst(s: seq<Version>) {
    forall i, j :: 0 <= i < j < |s| ==> !Newer(s[j], s[i])
  }

  function Placed(s: seq<Version>, v: Version): seq<Version> {
    if s == [] then [v]
    else
      var n := |s| - 1;
      if Newer(v, s[n]) then Placed(s[..n], v) + [s[n]] else s + [v]
  }

  function SortedEdges(versions: seq<Version>): seq<Version> {
    if versions == [] then []
    else
      var n := |versions| - 1;
      var before := SortedEdges(versions[..n]);
      if IsEdge(versions[n]) then Placed(before, versions[n]) else before
  }

  lemma {:induction false} PlacedHolds(s: seq<Version>, v: Version)
    ensures multiset(Placed(s, v)) == multiset(s) + multiset{v}
    ensures forall x :: x in Placed(s, v) <==> x in s || x == v
  {
    if s != [] {
      var n := |s| - 1;
      assert s == s[..n] + [s[n]];
      PlacedHolds(s[..n], v);
    }
  }

  lemma {:induction false} PlacedSorts(s: seq<Version>, v: Version)
    requires NewestFirst(s)
    ensures NewestFirst(Placed(s, v))
  {
    if s != [] && Newer(v, s[|s| - 1]) {
      var n := |s| - 1;
      PlacedSorts(s[..n], v);
      PlacedHolds(s[..n], v);
      hide Placed;
      var front := Placed(s[..n], v);
      forall x | x in front ensures !Newer(s[n], x) {
        if x != v {
          var i :| 0 <= i < n && s[..n][i] == x;
        }
      }
    }
  }

  lemma {:induction false} SortedEdgesSorts(versions: seq<Version>)
    ensures NewestFirst(SortedEdges(versions))
    ensures forall x :: x in SortedEdges(versions) <==> x in versions && IsEdge(x)
    ensures forall x :: multiset(SortedEdges(versions))[x] == if IsEdge(x) then multiset(versions)[x] else 0
  {
    if versions != [] {
      var n := |versions| - 1;
      assert versions == versions[..n] + [versions[n]];
      SortedEdgesSorts(versions[..n]);
      PlacedSorts(SortedEdges(versions[..n]), versions[n]);
      PlacedHolds(SortedEdges(versions[..n]), versions[n]);
    }
  }

  // ----- what must stay

  function Refs(children: Children, v: Version): seq<string> {
    if children(v.digest).Some? then children(v.digest).value else []
  }

  predicate Resolves(children: Children, vs: seq<Version>) {
    forall i :: 0 <= i < |vs| ==> children(vs[i].digest).Some?
  }

  /** The digests of some versions and of everything they list. */
  function Guarded(children: Children, vs: seq<Version>): set<string> {
    if vs == [] then {}
    else
      var v := vs[|vs| - 1];
      Guarded(children, vs[..|vs| - 1]) + {v.digest} + set r <- Refs(children, v)
  }

  function Releases(versions: seq<Version>): seq<Version> {
    if versions == [] then []
    else
      var n := |versions| - 1;
      Releases(versions[..n]) + if IsRelease(versions[n]) then [versions[n]] else []
  }

  lemma {:induction false} ReleasesAre(versions: seq<Version>)
    ensures forall x :: x in Releases(versions) <==> x in versions && IsRelease(x)
  {
    if versions != [] {
      var n := |versions| - 1;
      assert versions == versions[..n] + [versions[n]];
      ReleasesAre(versions[..n]);
    }
  }

  predicate Needs(children: Children, v: Version, d: string) { d == v.digest || d in Refs(children, v) }

  lemma {:induction false} GuardedIs(children: Children, vs: seq<Version>, d: string)
    ensures d in Guarded(children, vs) <==> exists i :: 0 <= i < |vs| && Needs(children, vs[i], d)
  {
    if vs != [] {
      var n := |vs| - 1;
      GuardedIs(children, vs[..n], d);
      assert d in Guarded(children, vs) <==> d in Guarded(children, vs[..n]) || Needs(children, vs[n], d);
      hide Guarded, Needs;
      assert forall i :: 0 <= i < n ==> vs[..n][i] == vs[i];
    }
  }

  lemma GuardedAre(children: Children, vs: seq<Version>)
    ensures forall d :: d in Guarded(children, vs) <==> exists i :: 0 <= i < |vs| && Needs(children, vs[i], d)
  {
    forall d ensures d in Guarded(children, vs) <==> exists i :: 0 <= i < |vs| && Needs(children, vs[i], d) {
      GuardedIs(children, vs, d);
    }
  }

  // ----- the plan

  predicate Has(out: seq<Version>, id: int) {
    exists i :: 0 <= i < |out| && out[i].id == id
  }

  function WithChild(out: seq<Version>, known: map<string, Version>, safe: set<string>, r: string): seq<Version> {
    if r !in known || r in safe || Has(out, known[r].id) then out else out + [known[r]]
  }

  function WithChildren(out: seq<Version>, known: map<string, Version>, safe: set<string>,
                        refs: seq<string>): seq<Version> {
    if refs == [] then out
    else WithChild(WithChildren(out, known, safe, refs[..|refs| - 1]), known, safe, refs[|refs| - 1])
  }

  function WithIndex(out: seq<Version>, known: map<string, Version>, safe: set<string>, children: Children,
                     v: Version): seq<Version> {
    var mid := WithChildren(out, known, safe, Refs(children, v));
    if v.digest in safe || Has(mid, v.id) then mid else mid + [v]
  }

  function Removals(known: map<string, Version>, safe: set<string>, children: Children,
                    doomed: seq<Version>): seq<Version> {
    if doomed == [] then []
    else WithIndex(Removals(known, safe, children, doomed[..|doomed| - 1]), known, safe, children, doomed[|doomed| - 1])
  }

  function ByDigest(versions: seq<Version>): map<string, Version> {
    if versions == [] then map[]
    else
      var v := versions[|versions| - 1];
      ByDigest(versions[..|versions| - 1])[v.digest := v]
  }

  function Kept(versions: seq<Version>, keep: nat): seq<Version>
    requires keep <= |SortedEdges(versions)|
  {
    SortedEdges(versions)[..keep]
  }

  function Doomed(versions: seq<Version>, keep: nat): seq<Version>
    requires keep <= |SortedEdges(versions)|
  {
    SortedEdges(versions)[keep..]
  }

  function Survivors(versions: seq<Version>, keep: nat): seq<Version>
    requires keep <= |SortedEdges(versions)|
  {
    Releases(versions) + Kept(versions, keep)
  }

  function Plan(versions: seq<Version>, children: Children, keep: nat): Option<seq<Version>> {
    if |SortedEdges(versions)| <= keep then Some([])
    else if !Resolves(children, Survivors(versions, keep) + Doomed(versions, keep)) then None
    else
      var safe := Guarded(children, Survivors(versions, keep));
      Some(Removals(ByDigest(versions), safe, children, Doomed(versions, keep)))
  }

  /** Fills the tables and the plan in loops, as the tool does. */
  method PlanPrune(versions: seq<Version>, children: Children, keep: nat) returns (plan: Option<seq<Version>>)
    ensures plan == Plan(versions, children, keep)
  {
    hide Removals, Guarded, Resolves, SortedEdges, ByDigest;
    var byDigest, edges := Tabulate(versions);
    if |edges| <= keep {
      return Some([]);
    }
    var doomed, kept := edges[keep..], edges[..keep];
    var released, ok := GuardReleases(versions, children);
    ResolvesSplit(children, Survivors(versions, keep), doomed);
    ResolvesSplit(children, Releases(versions), kept);
    GuardedSplit(children, Releases(versions), kept);
    if !ok {
      return None;
    }
    var current;
    current, ok := GuardAll(kept, children);
    if !ok {
      return None;
    }
    plan := RemoveAll(byDigest, released + current, children, doomed);
  }

  method Tabulate(versions: seq<Version>) returns (byDigest: map<string, Version>, edges: seq<Version>)
    ensures byDigest == ByDigest(versions) && edges == SortedEdges(versions)
  {
    byDigest, edges := map[], [];
    for i := 0 to |versions|
      invariant byDigest == ByDigest(versions[..i]) && edges == SortedEdges(versions[..i])
    {
      assert versions[..i + 1][..i] == versions[..i];
      var v := versions[i];
      byDigest := byDigest[v.digest := v];
      if IsEdge(v) {
        edges := Placed(edges, v);
      }
    }
    assert versions[..|versions|] == versions;
  }

  method GuardAll(vs: seq<Version>, children: Children) returns (safe: set<string>, ok: bool)
    ensures ok == Resolves(children, vs) && (ok ==> safe == Guarded(children, vs))
  {
    safe := {};
    for i := 0 to |vs|
      invariant forall j :: 0 <= j < i ==> children(vs[j].digest).Some?
      invariant safe == Guarded(children, vs[..i])
    {
      assert vs[..i + 1][..i] == vs[..i];
      var refs := children(vs[i].digest);
      if refs.None? {
        return safe, false;
      }
      safe := safe + {vs[i].digest} + set r <- refs.value;
    }
    assert vs[..|vs|] == vs;
    ok := true;
  }

  method GuardReleases(versions: seq<Version>, children: Children) returns (safe: set<string>, ok: bool)
    ensures ok == Resolves(children, Releases(versions)) && (ok ==> safe == Guarded(children, Releases(versions)))
  {
    hide Guarded, Releases, Resolves;
    safe := {};
    GuardedNone(versions, children);
    for i := 0 to |versions|
      invariant Resolves(children, Releases(versions[..i])) && safe == Guarded(children, Releases(versions[..i]))
    {
      var v := versions[i];
      ReleasesStep(versions, i, children);
      if v.tags != [] && !IsEdge(v) {
        var refs := children(v.digest);
        if refs.None? {
          return safe, false;
        }
        safe := safe + {v.digest} + set r <- refs.value;
      }
    }
    assert versions[..|versions|] == versions;
    ok := true;
  }

  lemma GuardedNone(versions: seq<Version>, children: Children)
    ensures Guarded(children, Releases(versions[..0])) == {} && Resolves(children, Releases(versions[..0]))
  {}

  lemma ReleasesStep(versions: seq<Version>, i: nat, children: Children)
    requires i < |versions|
    ensures var v := versions[i];
            var before, after := Releases(versions[..i]), Releases(versions[..i + 1]);
            && (!IsRelease(v) ==> after == before)
            && (IsRelease(v) ==>
                Guarded(children, after) == Guarded(children, before) + {v.digest} + set r <- Refs(children, v))
            && (IsRelease(v) && Resolves(children, before) && children(v.digest).Some? ==> Resolves(children, after))
            && (IsRelease(v) && children(v.digest).None? ==> !Resolves(children, Releases(versions)))
  {
    var v := versions[i];
    var before, after, all := Releases(versions[..i]), Releases(versions[..i + 1]), Releases(versions);
    assert versions[..i + 1][..i] == versions[..i];
    assert after == if IsRelease(v) then before + [v] else before;
    ReleasesGrow(versions, i + 1);
    hide Releases;
    if IsRelease(v) {
      GuardedLast(children, before, v);
      hide Guarded;
      assert all[|before|] == after[|before|] == v;
      ResolvesSplit(children, before, [v]);
      assert Resolves(children, [v]) <==> children([v][0].digest).Some?;
    }
  }

  method RemoveAll(known: map<string, Version>, safe: set<string>, children: Children, doomed: seq<Version>)
    returns (plan: Option<seq<Version>>)
    ensures plan == if Resolves(children, doomed) then Some(Removals(known, safe, children, doomed)) else None
  {
    hide WithChildren, Has;
    var out := [];
    for i := 0 to |doomed|
      invariant forall j :: 0 <= j < i ==> children(doomed[j].digest).Some?
      invariant out == Removals(known, safe, children, doomed[..i])
    {
      assert doomed[..i + 1][..i] == doomed[..i];
      var v := doomed[i];
      var refs := children(v.digest);
      if refs.None? {
        return None;
      }
      out := RemoveChildren(out, known, safe, refs.value);
      if v.digest !in safe && !Has(out, v.id) {
        out := out + [v];
      }
    }
    assert doomed[..|doomed|] == doomed;
    plan := Some(out);
  }

  method RemoveChildren(before: seq<Version>, known: map<string, Version>, safe: set<string>, refs: seq<string>)
    returns (out: seq<Version>)
    ensures out == WithChildren(before, known, safe, refs)
  {
    out := before;
    for j := 0 to |refs|
      invariant out == WithChildren(before, known, safe, refs[..j])
    {
      assert refs[..j + 1][..j] == refs[..j];
      var r := refs[j];
      if r !in known || r in safe || Has(out, known[r].id) {
        continue;
      }
      out := out + [known[r]];
    }
    assert refs[..|refs|] == refs;
  }

  lemma ResolvesSplit(children: Children, a: seq<Version>, b: seq<Version>)
    ensures Resolves(children, a + b) <==> Resolves(children, a) && Resolves(children, b)
  {
    assert forall i :: 0 <= i < |a| ==> (a + b)[i] == a[i];
    assert forall i :: 0 <= i < |b| ==> (a + b)[|a| + i] == b[i];
  }

  lemma GuardedLast(children: Children, vs: seq<Version>, v: Version)
    ensures Guarded(children, vs + [v]) == Guarded(children, vs) + ({v.digest} + set r <- Refs(children, v))
  {
    assert (vs + [v])[..|vs|] == vs;
  }

  lemma {:induction false} GuardedSplit(children: Children, a: seq<Version>, b: seq<Version>)
    ensures Guarded(children, a + b) == Guarded(children, a) + Guarded(children, b)
  {
    if b == [] {
      assert a + b == a;
    } else {
      hide Guarded, Refs;
      var front, v := b[..|b| - 1], b[|b| - 1];
      assert b == front + [v] && a + b == (a + front) + [v];
      GuardedSplit(children, a, front);
      GuardedLast(children, a + front, v);
      GuardedLast(children, front, v);
    }
  }

  lemma {:induction false} ReleasesGrow(versions: seq<Version>, i: nat)
    requires i <= |versions|
    ensures Releases(versions[..i]) <= Releases(versions)
    decreases |versions|
  {
    if i == |versions| {
      assert versions[..i] == versions;
    } else {
      var n := |versions| - 1;
      ReleasesGrow(versions[..n], i);
      assert versions[..n][..i] == versions[..i];
    }
  }

  // ----- what the plan does

  /** Digests and identifiers are unique, and no known child of a tagged version carries a tag. */
  ghost predicate Tidy(versions: seq<Version>, children: Children) {
    && (forall i, j :: 0 <= i < j < |versions| ==>
        versions[i].id != versions[j].id && versions[i].digest != versions[j].digest)
    && (forall v, c :: v in versions && c in versions && v.tags != [] && c.digest in Refs(children, v) ==> c.tags == [])
  }

  predicate NoneTwice(out: seq<Version>) {
    forall i, j :: 0 <= i < j < |out| ==> out[i].id != out[j].id
  }

  predicate Spares(out: seq<Version>, safe: set<string>) {
    forall i :: 0 <= i < |out| ==> out[i].digest !in safe
  }

  predicate Faithful(known: map<string, Version>) {
    forall d <- known :: known[d].digest == d
  }

  lemma {:induction false} ByDigestFinds(versions: seq<Version>)
    ensures Faithful(ByDigest(versions)) && forall d <- ByDigest(versions) :: ByDigest(versions)[d] in versions
    ensures forall v :: v in versions ==> v.digest in ByDigest(versions)
  {
    if versions != [] {
      var n := |versions| - 1;
      assert versions == versions[..n] + [versions[n]];
      ByDigestFinds(versions[..n]);
    }
  }

  lemma {:induction false} WithChildrenKeeps(out: seq<Version>, known: map<string, Version>, safe: set<string>,
                                             refs: seq<string>)
    requires NoneTwice(out) && Spares(out, safe) && Faithful(known)
    ensures var mid := WithChildren(out, known, safe, refs);
            && out <= mid && NoneTwice(mid) && Spares(mid, safe)
            && (forall i :: |out| <= i < |mid| ==>
                mid[i].digest in refs && mid[i].digest in known && known[mid[i].digest] == mid[i])
            && (forall r :: r in refs && r in known && r !in safe ==> Has(mid, known[r].id))
  {
    if refs != [] {
      var n := |refs| - 1;
      var r := refs[n];
      WithChildrenKeeps(out, known, safe, refs[..n]);
      assert refs == refs[..n] + [r];
      var before, mid := WithChildren(out, known, safe, refs[..n]), WithChildren(out, known, safe, refs);
      assert before <= mid && forall id :: Has(before, id) ==> Has(mid, id);
      assert mid != before ==> mid[|before|] == known[r];
    }
  }

  /** What the doomed indexes must be for the plan to come out right. */
  ghost predicate Setup(known: map<string, Version>, safe: set<string>, children: Children, doomed: seq<Version>) {
    && Faithful(known) && NoneTwice(doomed) && Spares(doomed, safe)
    && forall k, m, r :: 0 <= k < |doomed| && 0 <= m < |doomed| && r in Refs(children, doomed[k]) && r in known ==>
        known[r].id != doomed[m].id
  }

  /** An index stands after all its known children that are not to stay. */
  ghost predicate IndexAt(out: seq<Version>, p: nat, v: Version, known: map<string, Version>, safe: set<string>,
                          children: Children) {
    && p < |out| && out[p] == v
    && forall r :: r in Refs(children, v) && r in known && r !in safe ==> Has(out[..p], known[r].id)
  }

  ghost predicate HasIndex(out: seq<Version>, v: Version, known: map<string, Version>, safe: set<string>,
                           children: Children) {
    exists p: nat :: IndexAt(out, p, v, known, safe, children)
  }

  ghost predicate IsChild(c: Version, known: map<string, Version>, children: Children, doomed: seq<Version>) {
    c.digest in known && known[c.digest] == c && exists k :: 0 <= k < |doomed| && c.digest in Refs(children, doomed[k])
  }

  /**
   A plan for some doomed indexes: no version twice, none that must stay, all the indexes, each
   after its children.
   */
  ghost predicate Sound(out: seq<Version>, known: map<string, Version>, safe: set<string>, children: Children,
                        doomed: seq<Version>) {
    && NoneTwice(out) && Spares(out, safe)
    && (forall k :: 0 <= k < |doomed| ==> HasIndex(out, doomed[k], known, safe, children))
    && (forall i :: 0 <= i < |out| ==> out[i] in doomed || IsChild(out[i], known, children, doomed))
  }

  lemma {:induction false} RemovalsAreSound(known: map<string, Version>, safe: set<string>, children: Children,
                                            doomed: seq<Version>)
    requires Setup(known, safe, children, doomed)
    ensures Sound(Removals(known, safe, children, doomed), known, safe, children, doomed)
  {
    if doomed != [] {
      var n := |doomed| - 1;
      assert forall k :: 0 <= k < n ==> doomed[..n][k] == doomed[k];
      RemovalsAreSound(known, safe, children, doomed[..n]);
      IndexKeepsSound(Removals(known, safe, children, doomed[..n]), known, safe, children, doomed);
    }
  }

  lemma IndexKeepsSound(out: seq<Version>, known: map<string, Version>, safe: set<string>, children: Children,
                        doomed: seq<Version>)
    requires doomed != [] && Setup(known, safe, children, doomed)
    requires Sound(out, known, safe, children, doomed[..|doomed| - 1])
    ensures Sound(WithIndex(out, known, safe, children, doomed[|doomed| - 1]), known, safe, children, doomed)
  {
    hide WithChildren;
    var n := |doomed| - 1;
    var v := doomed[n];
    var refs := Refs(children, v);
    WithChildrenKeeps(out, known, safe, refs);
    var mid := WithChildren(out, known, safe, refs);
    IndexIsNew(out, mid, known, safe, children, doomed);
    var end := mid + [v];
    assert WithIndex(out, known, safe, children, v) == end;
    assert end[..|mid|] == mid;
    assert IndexAt(end, |mid|, v, known, safe, children);
    assert NoneTwice(end) && Spares(end, safe);
    forall k | 0 <= k < |doomed| ensures HasIndex(end, doomed[k], known, safe, children) {
      if k < n {
        assert doomed[..n][k] == doomed[k];
        assert HasIndex(out, doomed[k], known, safe, children);
        var p: nat :| IndexAt(out, p, doomed[k], known, safe, children);
        assert end[..p] == out[..p] && end[p] == out[p];
        assert IndexAt(end, p, doomed[k], known, safe, children);
      }
    }
    MembersStay(out, end, known, safe, children, doomed);
  }

  /** Neither an earlier index nor any child is this index. */
  lemma IndexIsNew(out: seq<Version>, mid: seq<Version>, known: map<string, Version>, safe: set<string>,
                   children: Children, doomed: seq<Version>)
    requires doomed != [] && Setup(known, safe, children, doomed) && out <= mid
    requires Sound(out, known, safe, children, doomed[..|doomed| - 1])
    requires forall i :: |out| <= i < |mid| ==>
               && mid[i].digest in Refs(children, doomed[|doomed| - 1])
               && mid[i].digest in known && known[mid[i].digest] == mid[i]
    ensures !Has(mid, doomed[|doomed| - 1].id)
  {}

  lemma MembersStay(out: seq<Version>, end: seq<Version>, known: map<string, Version>, safe: set<string>,
                    children: Children, doomed: seq<Version>)
    requires doomed != [] && |out| < |end| && out <= end && end[|end| - 1] == doomed[|doomed| - 1]
    requires forall i :: 0 <= i < |out| ==>
                out[i] in doomed[..|doomed| - 1] || IsChild(out[i], known, children, doomed[..|doomed| - 1])
    requires forall i :: |out| <= i < |end| - 1 ==>
               && end[i].digest in Refs(children, doomed[|doomed| - 1])
               && end[i].digest in known && known[end[i].digest] == end[i]
    ensures forall i :: 0 <= i < |end| ==> end[i] in doomed || IsChild(end[i], known, children, doomed)
  {}

  // ----- the registry

  lemma {:induction false} PlacedDistinct(s: seq<Version>, v: Version)
    requires NoneTwice(s) && forall x :: x in s ==> x.id != v.id
    ensures NoneTwice(Placed(s, v))
  {
    if s != [] && Newer(v, s[|s| - 1]) {
      var n := |s| - 1;
      PlacedDistinct(s[..n], v);
      PlacedHolds(s[..n], v);
      hide Placed;
      forall x | x in Placed(s[..n], v) ensures x.id != s[n].id {
        if x != v {
          var i :| 0 <= i < n && s[..n][i] == x;
        }
      }
    }
  }

  lemma {:induction false} SortedEdgesDistinct(versions: seq<Version>)
    requires NoneTwice(versions)
    ensures NoneTwice(SortedEdges(versions))
  {
    if versions != [] {
      var n := |versions| - 1;
      SortedEdgesDistinct(versions[..n]);
      SortedEdgesSorts(versions[..n]);
      hide Placed;
      if IsEdge(versions[n]) {
        forall x | x in SortedEdges(versions[..n]) ensures x.id != versions[n].id {
          var i :| 0 <= i < n && versions[..n][i] == x;
          assert versions[i] == x;
        }
        PlacedDistinct(SortedEdges(versions[..n]), versions[n]);
      }
    }
  }

  lemma SameVersion(versions: seq<Version>, children: Children, v: Version, w: Version)
    requires Tidy(versions, children) && v in versions && w in versions
    ensures v.id == w.id || v.digest == w.digest ==> v == w
  {}

  lemma SurvivorsAre(versions: seq<Version>, keep: nat, v: Version)
    requires keep <= |SortedEdges(versions)| && v in Survivors(versions, keep)
    ensures v in versions && v.tags != [] && (IsRelease(v) || v in Kept(versions, keep))
  {
    ReleasesAre(versions);
    SortedEdgesSorts(versions);
    assert v in Kept(versions, keep) ==> v in SortedEdges(versions);
  }

  lemma DoomedAre(versions: seq<Version>, keep: nat, v: Version)
    requires keep <= |SortedEdges(versions)| && v in Doomed(versions, keep)
    ensures v in versions && IsEdge(v)
  {
    SortedEdgesSorts(versions);
    assert v in SortedEdges(versions);
  }

  /** The builds that are kept are as many as asked for and none of the others is newer. */
  lemma KeptAreNewest(versions: seq<Version>, keep: nat, v: Version)
    requires keep <= |SortedEdges(versions)| && v in versions && IsEdge(v)
    ensures v in Kept(versions, keep) || v in Doomed(versions, keep)
    ensures |Kept(versions, keep)| == keep
    ensures forall k :: k in Kept(versions, keep) && v in Doomed(versions, keep) ==>
              k.created > v.created || (k.created == v.created && k.id >= v.id)
  {
    SortedEdgesSorts(versions);
    var all := SortedEdges(versions);
    assert all == all[..keep] + all[keep..];
  }

  lemma NotDoomedAndSurviving(versions: seq<Version>, children: Children, keep: nat, d: Version, s: Version)
    requires Tidy(versions, children) && keep <= |SortedEdges(versions)|
    requires d in Doomed(versions, keep) && s in Survivors(versions, keep)
    ensures d.digest != s.digest && d.digest !in Refs(children, s)
  {
    DoomedAre(versions, keep, d);
    SurvivorsAre(versions, keep, s);
    SameVersion(versions, children, d, s);
    KeptNotDoomed(versions, keep, s);
  }

  lemma KeptNotDoomed(versions: seq<Version>, keep: nat, v: Version)
    requires keep <= |SortedEdges(versions)| && NoneTwice(versions)
    ensures v in Kept(versions, keep) ==> v !in Doomed(versions, keep)
  {
    SortedEdgesDistinct(versions);
    var all := SortedEdges(versions);
    if i :| 0 <= i < keep && all[i] == v {
      assert forall j :: keep <= j < |all| ==> all[j].id != v.id;
    }
  }

  lemma DoomedAreSetUp(versions: seq<Version>, children: Children, keep: nat)
    requires Tidy(versions, children) && keep <= |SortedEdges(versions)|
    ensures Setup(ByDigest(versions), Guarded(children, Survivors(versions, keep)), children, Doomed(versions, keep))
  {
    var known, survivors, doomed := ByDigest(versions), Survivors(versions, keep), Doomed(versions, keep);
    hide SortedEdges, ByDigest, Guarded, Survivors, Doomed;
    ByDigestFinds(versions);
    assert NoneTwice(doomed) by { DoomedDistinct(versions, keep); }
    forall k | 0 <= k < |doomed| ensures doomed[k].digest !in Guarded(children, survivors) {
      GuardedAre(children, survivors);
      forall i | 0 <= i < |survivors|
        ensures doomed[k].digest != survivors[i].digest && doomed[k].digest !in Refs(children, survivors[i])
      {
        NotDoomedAndSurviving(versions, children, keep, doomed[k], survivors[i]);
      }
    }
    forall k, m, r | 0 <= k < |doomed| && 0 <= m < |doomed| && r in Refs(children, doomed[k]) && r in known
      ensures known[r].id != doomed[m].id
    {
      DoomedAre(versions, keep, doomed[k]);
      DoomedAre(versions, keep, doomed[m]);
      assert known[r].tags == [];
      SameVersion(versions, children, known[r], doomed[m]);
    }
  }

  lemma DoomedDistinct(versions: seq<Version>, keep: nat)
    requires keep <= |SortedEdges(versions)| && NoneTwice(versions)
    ensures NoneTwice(Doomed(versions, keep))
  {
    SortedEdgesDistinct(versions);
  }

  /** The plan the tool makes for a registry is sound. */
  lemma PlanIsSound(versions: seq<Version>, children: Children, keep: nat)
    requires Tidy(versions, children) && keep < |SortedEdges(versions)| && Plan(versions, children, keep).Some?
    ensures Sound(Plan(versions, children, keep).value, ByDigest(versions),
                  Guarded(children, Survivors(versions, keep)), children, Doomed(versions, keep))
  {
    hide SortedEdges, ByDigest, Guarded, Survivors, Doomed, Sound, Setup, Removals;
    DoomedAreSetUp(versions, children, keep);
    var safe := Guarded(children, Survivors(versions, keep));
    RemovalsAreSound(ByDigest(versions), safe, children, Doomed(versions, keep));
  }

  /** Every older build is in the plan. */
  lemma OlderBuildsGo(versions: seq<Version>, children: Children, keep: nat, v: Version)
    requires Tidy(versions, children) && keep < |SortedEdges(versions)| && Plan(versions, children, keep).Some?
    ensures v in Doomed(versions, keep) ==> v in Plan(versions, children, keep).value
  {
    hide SortedEdges, ByDigest, Guarded, Survivors, Doomed, Removals;
    PlanIsSound(versions, children, keep);
  }

  lemma SoundMember(out: seq<Version>, known: map<string, Version>, safe: set<string>, children: Children,
                    doomed: seq<Version>, i: nat)
    requires Sound(out, known, safe, children, doomed) && i < |out|
    ensures out[i] in doomed || IsChild(out[i], known, children, doomed)
  {}

  /** What the plan names: an older build, or an untagged version that one of them lists. */
  lemma PlanNames(versions: seq<Version>, children: Children, keep: nat, i: nat)
    requires Tidy(versions, children) && keep < |SortedEdges(versions)| && Plan(versions, children, keep).Some?
    requires i < |Plan(versions, children, keep).value|
    ensures var v := Plan(versions, children, keep).value[i];
            v in versions
            && (|| v in Doomed(versions, keep)
                || (v.tags == [] && exists d :: d in Doomed(versions, keep) && v.digest in Refs(children, d)))
  {
    var v, doomed := Plan(versions, children, keep).value[i], Doomed(versions, keep);
    PlanIsSound(versions, children, keep);
    hide SortedEdges, ByDigest, Guarded, Survivors, Doomed, Removals, Plan, Sound;
    var safe := Guarded(children, Survivors(versions, keep));
    SoundMember(Plan(versions, children, keep).value, ByDigest(versions), safe, children, doomed, i);
    if v in doomed {
      DoomedAre(versions, keep, v);
    } else {
      ByDigestFinds(versions);
      var k :| 0 <= k < |doomed| && v.digest in Refs(children, doomed[k]);
      DoomedAre(versions, keep, doomed[k]);
    }
  }

  /** The tagged versions that the plan names are no later than any build that it does not name. */
  lemma NamedAreOldest(versions: seq<Version>, children: Children, keep: nat, v: Version, k: Version)
    requires Tidy(versions, children) && Plan(versions, children, keep).Some?
    requires v in Plan(versions, children, keep).value && v.tags != []
    requires k in versions && k.tags != [] && forall t :: t in k.tags ==> BuildTag(t)
    requires k !in Plan(versions, children, keep).value
    ensures v.created < k.created || (v.created == k.created && v.id <= k.id)
  {
    var plan := Plan(versions, children, keep).value;
    var i :| 0 <= i < |plan| && plan[i] == v;
    assert keep < |SortedEdges(versions)|;
    hide SortedEdges, Survivors, Doomed, Kept, Plan, BuildTag, IsEdge;
    EdgeByTags(k);
    PlanNames(versions, children, keep, i);
    DoomedAre(versions, keep, v);
    OlderBuildsGo(versions, children, keep, k);
    KeptAreNewest(versions, keep, k);
    KeptAreNewest(versions, keep, v);
  }

  lemma {:induction false} WithChildrenSpares(out: seq<Version>, known: map<string, Version>, safe: set<string>,
                                              refs: seq<string>)
    requires Faithful(known) && Spares(out, safe)
    ensures Spares(WithChildren(out, known, safe, refs), safe)
  {
    if refs != [] {
      WithChildrenSpares(out, known, safe, refs[..|refs| - 1]);
    }
  }

  lemma {:induction false} RemovalsSpare(known: map<string, Version>, safe: set<string>, children: Children,
                                         doomed: seq<Version>)
    requires Faithful(known)
    ensures Spares(Removals(known, safe, children, doomed), safe)
  {
    if doomed != [] {
      var n := |doomed| - 1;
      RemovalsSpare(known, safe, children, doomed[..n]);
      WithChildrenSpares(Removals(known, safe, children, doomed[..n]), known, safe, Refs(children, doomed[n]));
    }
  }

  /** In any listing at all, a version carrying a tag of another kind is never named. */
  lemma OtherTagsStay(versions: seq<Version>, children: Children, keep: nat, v: Version, t: string, i: nat)
    requires v in versions && t in v.tags && !BuildTag(t)
    requires Plan(versions, children, keep).Some? && i < |Plan(versions, children, keep).value|
    ensures Plan(versions, children, keep).value[i].digest != v.digest
  {
    hide SortedEdges, ByDigest, Guarded, Removals, BuildTag, Kept;
    EdgeByTags(v);
    ReleasesAre(versions);
    ByDigestFinds(versions);
    var released, survivors := Releases(versions), Survivors(versions, keep);
    assert v in released;
    var k :| 0 <= k < |released| && released[k] == v;
    assert survivors[k] == v;
    assert Needs(children, survivors[k], v.digest);
    GuardedIs(children, survivors, v.digest);
    RemovalsSpare(ByDigest(versions), Guarded(children, survivors), children, Doomed(versions, keep));
  }

  lemma RemovedWithIndex(versions: seq<Version>, children: Children, keep: nat, n: nat, v: Version, c: Version)
    requires Tidy(versions, children) && keep < |SortedEdges(versions)| && Plan(versions, children, keep).Some?
    requires n <= |Plan(versions, children, keep).value| && v in Plan(versions, children, keep).value[..n]
    requires v.tags != []
    requires c in versions && c.digest in Refs(children, v) && c.digest !in Guarded(children, Survivors(versions, keep))
    ensures c in Plan(versions, children, keep).value[..n]
  {
    var plan, known := Plan(versions, children, keep).value, ByDigest(versions);
    var safe := Guarded(children, Survivors(versions, keep));
    PlanIsSound(versions, children, keep);
    hide SortedEdges, ByDigest, Guarded, Survivors, Doomed, Removals, Plan, Tidy;
    var q :| 0 <= q < n && plan[q] == v;
    PlanNames(versions, children, keep, q);
    var k :| 0 <= k < |Doomed(versions, keep)| && Doomed(versions, keep)[k] == v;
    assert HasIndex(plan, v, known, safe, children);
    var p: nat :| IndexAt(plan, p, v, known, safe, children);
    assert p == q;
    assert known[c.digest] == c by { TidyFinds(versions, children, c); }
    assert c.digest in known by { TidyFinds(versions, children, c); }
    var j :| 0 <= j < p && plan[..p][j].id == c.id;
    PlanNames(versions, children, keep, j);
    SameVersion(versions, children, plan[j], c);
  }

  lemma ListedBySurvivor(versions: seq<Version>, children: Children, keep: nat, v: Version, c: Version)
    requires Tidy(versions, children) && keep <= |SortedEdges(versions)| && v in versions && v.tags != []
    requires c in versions && c.digest in Refs(children, v) && c.digest in Guarded(children, Survivors(versions, keep))
    ensures exists s :: s in Survivors(versions, keep) && c.digest in Refs(children, s)
  {
    var survivors := Survivors(versions, keep);
    hide SortedEdges, Guarded, Survivors;
    GuardedAre(children, survivors);
    var i :| 0 <= i < |survivors| && Needs(children, survivors[i], c.digest);
    SurvivorsAre(versions, keep, survivors[i]);
    SameVersion(versions, children, c, survivors[i]);
    assert survivors[i] in survivors;
  }

  lemma TidyFinds(versions: seq<Version>, children: Children, c: Version)
    requires Tidy(versions, children) && c in versions
    ensures c.digest in ByDigest(versions) && ByDigest(versions)[c.digest] == c
  {}

  /**
   Stopping the removal anywhere breaks no survivor and orphans no child: a survivor and whatever
   it lists are still there, and of a removed index every child is removed too or listed by a survivor.
   */
  lemma PrefixIsSafe(versions: seq<Version>, children: Children, keep: nat, n: nat, v: Version)
    requires Tidy(versions, children) && keep < |SortedEdges(versions)| && Plan(versions, children, keep).Some?
    requires n <= |Plan(versions, children, keep).value| && v in versions
    ensures var gone := Plan(versions, children, keep).value[..n];
            && (v in Survivors(versions, keep) ==>
                v !in gone && forall c :: c in versions && c.digest in Refs(children, v) ==> c !in gone)
            && (v in gone && v.tags != [] ==>
                  forall c :: c in versions && c.digest in Refs(children, v) ==>
                    c in gone || exists s :: s in Survivors(versions, keep) && c.digest in Refs(children, s))
  {
    var plan, known, doomed := Plan(versions, children, keep).value, ByDigest(versions), Doomed(versions, keep);
    var safe := Guarded(children, Survivors(versions, keep));
    hide SortedEdges, ByDigest, Guarded, Survivors, Doomed, Removals, Plan;
    PlanIsSound(versions, children, keep);
    GuardedAre(children, Survivors(versions, keep));
    var gone := plan[..n];
    assert forall x :: x in gone ==> x in plan && x.digest !in safe;
    if v in gone && v.tags != [] {
      forall c | c in versions && c.digest in Refs(children, v)
        ensures c in gone || exists s :: s in Survivors(versions, keep) && c.digest in Refs(children, s)
      {
        if c.digest !in safe {
          RemovedWithIndex(versions, children, keep, n, v, c);
        } else {
          ListedBySurvivor(versions, children, keep, v, c);
        }
      }
    }
  }
}
