/**
 * The digestion engine of radsim: a `Digest` holds one or two restriction
 * enzymes, and `IterFragments` turns the cut positions that the restriction
 * search reports for them into the fragments bordered by two consecutive
 * recognition sites.
 *
 * The search itself (Biopython's `RestrictionBatch.search`) is not modelled:
 * its result is an input, one `SearchHit` per enzyme in the order the search
 * result is iterated.
 */
module Radsim {
  import opened Prelude
  import opened Sorting

  /** A restriction enzyme as the digest reads it: its name, the length of its
      recognition site and its `fst3` cut offset. */
  datatype Enzyme = Enzyme(name: string, size: nat, fst3: int)

  /** One digestion product, the slice [lhs, rhs) of the sequence, with the
      enzymes whose sites border it on the left and on the right. */
  datatype Fragment = Fragment(lhs: int, rhs: int, lhsEnzyme: Enzyme, rhsEnzyme: Enzyme)

  /** The cut positions that the search reports for one enzyme. */
  datatype SearchHit = SearchHit(enzyme: Enzyme, cuts: seq<int>)

  /** One item of the site map: a cut position and the enzyme credited with it. */
  datatype Site = Site(cut: int, enzyme: Enzyme)

  /** The first position past the recognition site of `site` (the right end of
      a slice that ends with that site). */
  function SiteEnd(site: Site): int {
    site.cut + site.enzyme.fst3 - 1 + site.enzyme.size
  }

  /** The enzymes of a digest, each listed once. */
  function DistinctEnzymes(enzyme: Enzyme, r2Enzyme: Enzyme): (batch: seq<Enzyme>)
    ensures forall e :: e in batch <==> e == enzyme || e == r2Enzyme
    ensures forall i, j :: 0 <= i < j < |batch| ==> batch[i] != batch[j]
    ensures |batch| == if enzyme == r2Enzyme then 1 else 2
  {
    if enzyme == r2Enzyme then [enzyme] else [enzyme, r2Enzyme]
  }

  // ---------------------------------------------------------------------------
  // The site map: every reported cut position, credited to one enzyme.
  // ---------------------------------------------------------------------------

  /** `reSites` after recording each of `cuts`, in order, as a cut of `enzyme`. */
  function Register(reSites: map<int, Enzyme>, enzyme: Enzyme, cuts: seq<int>): (r: map<int, Enzyme>)
    ensures forall c :: c in r <==> c in reSites || c in cuts
    ensures forall c :: c in cuts ==> r[c] == enzyme
    ensures forall c :: c in reSites && c !in cuts ==> r[c] == reSites[c]
  {
    if cuts == [] then reSites
    else
      var before := cuts[..|cuts| - 1];
      assert forall c :: c in cuts <==> c in before || c == cuts[|cuts| - 1];
      Register(reSites, enzyme, before)[cuts[|cuts| - 1] := enzyme]
  }

  /** The site map built from the whole search result, hit after hit. */
  function SiteMap(search: seq<SearchHit>): (reSites: map<int, Enzyme>)
  {
    if search == [] then map[]
    else
      var last := search[|search| - 1];
      Register(SiteMap(search[..|search| - 1]), last.enzyme, last.cuts)
  }

  /** Every cut the search reports, for any enzyme. */
  ghost function ReportedCuts(search: seq<SearchHit>): set<int> {
    set i, c | 0 <= i < |search| && c in search[i].cuts :: c
  }

  /** The site map holds exactly the reported cut positions. */
  lemma {:induction false} SiteMapKeys(search: seq<SearchHit>, c: int)
    ensures c in SiteMap(search) <==> exists i :: 0 <= i < |search| && c in search[i].cuts
  {
    if search != [] {
      var n := |search| - 1;
      var before := search[..n];
      SiteMapKeys(before, c);
      if c in SiteMap(search) && c !in search[n].cuts {
        var i :| 0 <= i < |before| && c in before[i].cuts;
        assert c in search[i].cuts;
      }
      if exists i :: 0 <= i < |search| && c in search[i].cuts {
        var i :| 0 <= i < |search| && c in search[i].cuts;
        if i < n {
          assert c in before[i].cuts;
        }
      }
    }
  }

  /** When several hits report the same position, the last of them wins. */
  lemma {:induction false} SiteMapLastWins(search: seq<SearchHit>, i: int, c: int)
    requires 0 <= i < |search| && c in search[i].cuts
    requires forall j :: i < j < |search| ==> c !in search[j].cuts
    ensures c in SiteMap(search) && SiteMap(search)[c] == search[i].enzyme
  {
    var n := |search| - 1;
    var before := search[..n];
    if i < n {
      forall j | i < j < |before|
        ensures c !in before[j].cuts
      {
        assert before[j] == search[j];
      }
      SiteMapLastWins(before, i, c);
    }
  }

  /** Every position in the site map is credited to an enzyme that reported it,
      and no later hit reports that position. */
  lemma {:induction false} SiteMapCredit(search: seq<SearchHit>, c: int)
    requires c in SiteMap(search)
    ensures exists i :: 0 <= i < |search| && c in search[i].cuts &&
                        SiteMap(search)[c] == search[i].enzyme &&
                        forall j :: i < j < |search| ==> c !in search[j].cuts
  {
    var n := |search| - 1;
    if c in search[n].cuts {
      SiteMapLastWins(search, n, c);
    } else {
      var before := search[..n];
      SiteMapCredit(before, c);
      var i :| 0 <= i < |before| && c in before[i].cuts &&
               SiteMap(before)[c] == before[i].enzyme &&
               forall j :: i < j < |before| ==> c !in before[j].cuts;
      assert search[i] == before[i];
      forall j | i < j < |search|
        ensures c !in search[j].cuts
      {
        if j < n {
          assert before[j] == search[j];
        }
      }
    }
  }

  /** The first stage of `iter_fragments`: fold the search result into a map
      from cut position to enzyme, a later report overwriting an earlier one. */
  method CollectSites(search: seq<SearchHit>) returns (reSites: map<int, Enzyme>)
    ensures reSites == SiteMap(search)
  {
    reSites := map[];
    for h := 0 to |search|
      invariant reSites == SiteMap(search[..h])
    {
      var hit := search[h];
      ghost var done := SiteMap(search[..h]);
      for j := 0 to |hit.cuts|
        invariant reSites == Register(done, hit.enzyme, hit.cuts[..j])
      {
        reSites := reSites[hit.cuts[j] := hit.enzyme];
        assert hit.cuts[..j + 1][..j] == hit.cuts[..j];
      }
      assert hit.cuts[..|hit.cuts|] == hit.cuts;
      assert search[..h + 1][..h] == search[..h];
    }
    assert search[..|search|] == search;
  }

  // ---------------------------------------------------------------------------
  // The walk over the sites in ascending order of position.
  // ---------------------------------------------------------------------------

  /** The items of the site map, in ascending order of position. */
  function SortedSites(reSites: map<int, Enzyme>): (sites: seq<Site>)
    ensures |sites| == |reSites.Keys|
    ensures forall k :: 0 <= k < |sites| ==> sites[k].cut in reSites && sites[k].enzyme == reSites[sites[k].cut]
    ensures forall i, j :: 0 <= i < j < |sites| ==> sites[i].cut < sites[j].cut
  {
    var cuts := SortedKeys(reSites.Keys);
    seq(|cuts|, k requires 0 <= k < |cuts| => Site(cuts[k], reSites[cuts[k]]))
  }

  /** The walk visits every position of the site map. */
  lemma SortedSitesCover(reSites: map<int, Enzyme>, c: int)
    requires c in reSites
    ensures exists k :: 0 <= k < |SortedSites(reSites)| && SortedSites(reSites)[k].cut == c
  {
    var cuts := SortedKeys(reSites.Keys);
    assert c in cuts;
    var k :| 0 <= k < |cuts| && cuts[k] == c;
    assert SortedSites(reSites)[k].cut == c;
  }

  /** The fragment closed when the walk reaches site `cur` from site `prev`:
      it runs from the first base of `prev`'s recognition site to the end of
      `cur`'s. */
  function Close(prev: Site, cur: Site): (f: Fragment)
    ensures f.lhs == prev.cut + prev.enzyme.fst3 - 1
    ensures f.lhsEnzyme == prev.enzyme && f.rhsEnzyme == cur.enzyme
    ensures prev.enzyme == cur.enzyme ==> f.rhs - f.lhs == cur.cut - prev.cut + cur.enzyme.size
  {
    Fragment(SiteEnd(prev) - prev.enzyme.size, SiteEnd(cur), prev.enzyme, cur.enzyme)
  }

  /** The fragments of a walk over `sites`: one for every site after the first. */
  function Pairs(sites: seq<Site>): (frags: seq<Fragment>)
    ensures |frags| == MaxZero(|sites| - 1)
  {
    if |sites| < 2 then []
    else Pairs(sites[..|sites| - 1]) + [Close(sites[|sites| - 2], sites[|sites| - 1])]
  }

  /** One more step of the walk closes one more fragment, from the second site on. */
  lemma PairsStep(sites: seq<Site>, k: int)
    requires 0 <= k < |sites|
    ensures k == 0 ==> Pairs(sites[..k + 1]) == []
    ensures 0 < k ==> Pairs(sites[..k + 1]) == Pairs(sites[..k]) + [Close(sites[k - 1], sites[k])]
  {
    assert sites[..k + 1][..k] == sites[..k];
  }

  /** Fragment k of a walk is the one between sites k and k + 1. */
  lemma {:induction false} PairsAt(sites: seq<Site>, k: int)
    requires 0 <= k < |sites| - 1
    ensures |Pairs(sites)| == |sites| - 1
    ensures Pairs(sites)[k] == Close(sites[k], sites[k + 1])
  {
    var before := sites[..|sites| - 1];
    if k < |sites| - 2 {
      PairsAt(before, k);
      assert before[k] == sites[k] && before[k + 1] == sites[k + 1];
    }
  }

  /** The walk of `iter_fragments` over the sites in ascending order: the
      first site only seeds the walk, and each later one closes the fragment
      that runs from the previous site to it. */
  method WalkSites(sites: seq<Site>) returns (frags: seq<Fragment>)
    ensures frags == Pairs(sites)
  {
    // `thisPair` is Some(this_pair[1]) once the first site is seen
    var thisPair: Option<int> := None;
    var lastEnzyme: Option<Enzyme> := None;
    frags := [];
    for k := 0 to |sites|
      invariant k == 0 ==> thisPair.None? && lastEnzyme.None?
      invariant 0 < k ==> thisPair == Some(SiteEnd(sites[k - 1])) && lastEnzyme == Some(sites[k - 1].enzyme)
      invariant frags == Pairs(sites[..k])
    {
      var site := sites[k];
      PairsStep(sites, k);
      if thisPair.None? {
        thisPair := Some(SiteEnd(site));
        lastEnzyme := Some(site.enzyme);
        continue;
      }
      var lhs := thisPair.value - lastEnzyme.value.size;
      var rhs := SiteEnd(site);
      var fragment := Fragment(lhs, rhs, lastEnzyme.value, site.enzyme);
      thisPair := Some(rhs);
      lastEnzyme := Some(site.enzyme);
      frags := frags + [fragment];
    }
    assert sites[..|sites|] == sites;
  }

  /** In any walk, consecutive fragments share the site between them. This is
      stated over an arbitrary walk so that `FragmentsChain` need not unfold
      the site map to reach it. */
  lemma PairsChain(sites: seq<Site>, k: int)
    requires 0 <= k < |Pairs(sites)| - 1
    ensures Pairs(sites)[k + 1].lhsEnzyme == Pairs(sites)[k].rhsEnzyme
    ensures Pairs(sites)[k + 1].lhs == Pairs(sites)[k].rhs - Pairs(sites)[k].rhsEnzyme.size
  {
    PairsAt(sites, k);
    PairsAt(sites, k + 1);
  }

  /** The fragments `iter_fragments` yields for a search result. */
  function DigestFragments(search: seq<SearchHit>): seq<Fragment> {
    Pairs(SortedSites(SiteMap(search)))
  }

  /** Zero or one distinct site yields nothing; otherwise one fragment fewer
      than there are distinct reported positions. */
  lemma FragmentCount(search: seq<SearchHit>)
    ensures |DigestFragments(search)| == MaxZero(|ReportedCuts(search)| - 1)
  {
    var reSites := SiteMap(search);
    forall c
      ensures c in reSites.Keys <==> c in ReportedCuts(search)
    {
      SiteMapKeys(search, c);
      if c in reSites {
        var i :| 0 <= i < |search| && c in search[i].cuts;
        assert c in ReportedCuts(search);
      }
    }
    assert reSites.Keys == ReportedCuts(search);
  }

  /** Where fragment k lies: it starts with the recognition site at the k-th
      smallest position and ends with the site at the next one, each credited
      to the enzyme the site map holds for it. */
  lemma FragmentGeometry(search: seq<SearchHit>, k: int)
    requires 0 <= k < |DigestFragments(search)|
    ensures var sites := SortedSites(SiteMap(search));
            var f := DigestFragments(search)[k];
            k + 1 < |sites| && sites[k].cut < sites[k + 1].cut &&
            f.lhs == sites[k].cut + sites[k].enzyme.fst3 - 1 &&
            f.rhs == sites[k + 1].cut + sites[k + 1].enzyme.fst3 - 1 + sites[k + 1].enzyme.size &&
            f.lhsEnzyme == SiteMap(search)[sites[k].cut] &&
            f.rhsEnzyme == SiteMap(search)[sites[k + 1].cut]
  {
    PairsAt(SortedSites(SiteMap(search)), k);
  }

  /** Consecutive fragments share one recognition site: the next one starts
      where the previous one's right-hand site starts. */
  lemma FragmentsChain(search: seq<SearchHit>, k: int)
    requires 0 <= k < |DigestFragments(search)| - 1
    ensures var frags := DigestFragments(search);
            frags[k + 1].lhsEnzyme == frags[k].rhsEnzyme &&
            frags[k + 1].lhs == frags[k].rhs - frags[k].rhsEnzyme.size
  {
    PairsChain(SortedSites(SiteMap(search)), k);
  }

  /** Both ends of every fragment are credited to an enzyme of the search. */
  lemma FragmentEndsReported(search: seq<SearchHit>, k: int)
    requires 0 <= k < |DigestFragments(search)|
    ensures exists i :: 0 <= i < |search| && DigestFragments(search)[k].lhsEnzyme == search[i].enzyme
    ensures exists i :: 0 <= i < |search| && DigestFragments(search)[k].rhsEnzyme == search[i].enzyme
  {
    var reSites := SiteMap(search);
    var sites := SortedSites(reSites);
    PairsAt(sites, k);
    SiteMapCredit(search, sites[k].cut);
    SiteMapCredit(search, sites[k + 1].cut);
  }

  /** A restriction digest with one or two enzymes. */
  class Digest {
    const enzyme: Enzyme
    const r2Enzyme: Enzyme
    const enzymeSet: seq<Enzyme>

    /** Without a second enzyme, the first one serves at both ends. */
    constructor (enzyme: Enzyme, r2Enzyme: Option<Enzyme>)
      ensures this.enzyme == enzyme
      ensures this.r2Enzyme == if r2Enzyme.None? then enzyme else r2Enzyme.value
      ensures forall e :: e in enzymeSet <==> e == this.enzyme || e == this.r2Enzyme
      ensures forall i, j :: 0 <= i < j < |enzymeSet| ==> enzymeSet[i] != enzymeSet[j]
      ensures 1 <= |enzymeSet| <= 2
    {
      var r2 := if r2Enzyme.None? then enzyme else r2Enzyme.value;
      this.enzyme := enzyme;
      this.r2Enzyme := r2;
      this.enzymeSet := DistinctEnzymes(enzyme, r2);
    }

    /** The fragments bordered by two consecutive sites, given what the
        restriction search reports for this digest's enzymes. `strict` is
        accepted and has no effect. */
    method IterFragments(search: seq<SearchHit>, strict: bool) returns (frags: seq<Fragment>)
      ensures frags == DigestFragments(search)
      ensures (forall i :: 0 <= i < |search| ==> search[i].enzyme in enzymeSet) ==>
                forall k :: 0 <= k < |frags| ==> frags[k].lhsEnzyme in enzymeSet && frags[k].rhsEnzyme in enzymeSet
    {
      var reSites := CollectSites(search);
      var sites := SortedSites(reSites);
      frags := WalkSites(sites);
      forall k | 0 <= k < |frags|
        ensures (forall i :: 0 <= i < |search| ==> search[i].enzyme in enzymeSet) ==>
                  frags[k].lhsEnzyme in enzymeSet && frags[k].rhsEnzyme in enzymeSet
      {
        FragmentEndsReported(search, k);
      }
    }
  }

  // ---------------------------------------------------------------------------
  // The digests of the repository's tests, with Biopython's PstI and EcoRV.
  // ---------------------------------------------------------------------------

  const PstI := Enzyme("PstI", 6, -5)
  const EcoRV := Enzyme("EcoRV", 6, -3)

  /** A search whose site map holds three positions digests into the two
      fragments between them. */
  lemma DigestOfThreeSites(search: seq<SearchHit>, a: Site, b: Site, c: Site)
    requires a.cut < b.cut < c.cut
    requires SiteMap(search) == map[a.cut := a.enzyme, b.cut := b.enzyme, c.cut := c.enzyme]
    ensures DigestFragments(search) == [Close(a, b), Close(b, c)]
  {
    SortedThreeSites(a, b, c);
    PairsAt([a, b, c], 0);
    PairsAt([a, b, c], 1);
  }

  /** A site map with three positions is walked in ascending order. */
  lemma SortedThreeSites(a: Site, b: Site, c: Site)
    requires a.cut < b.cut < c.cut
    ensures SortedSites(map[a.cut := a.enzyme, b.cut := b.enzyme, c.cut := c.enzyme]) == [a, b, c]
  {
    var reSites := map[a.cut := a.enzyme, b.cut := b.enzyme, c.cut := c.enzyme];
    var cuts := [a.cut, b.cut, c.cut];
    assert StrictlyAscending(cuts);
    assert forall x :: x in cuts <==> x in reSites.Keys;
    SortedKeysIs(reSites.Keys, cuts);
    var sites := SortedSites(reSites);
    assert |sites| == 3;
    assert sites[0] == a && sites[1] == b && sites[2] == c;
  }

  /** Three PstI sites give two fragments with PstI at both ends. */
  lemma PstIDigest()
    ensures DigestFragments([SearchHit(PstI, [8, 19, 29])]) ==
            [Fragment(2, 19, PstI, PstI), Fragment(13, 29, PstI, PstI)]
  {
    var search := [SearchHit(PstI, [8, 19, 29])];
    assert search[..0] == [];
    DigestOfThreeSites(search, Site(8, PstI), Site(19, PstI), Site(29, PstI));
  }

  /** PstI sites around an EcoRV site give fragments with a different enzyme
      at each end. */
  lemma PstIEcoRVDigest()
    ensures DigestFragments([SearchHit(PstI, [8, 29]), SearchHit(EcoRV, [17])]) ==
            [Fragment(2, 19, PstI, EcoRV), Fragment(13, 29, EcoRV, PstI)]
  {
    var search := [SearchHit(PstI, [8, 29]), SearchHit(EcoRV, [17])];
    assert search[..1] == [SearchHit(PstI, [8, 29])];
    assert search[..1][..0] == [];
    assert SiteMap(search[..1]) == map[8 := PstI, 29 := PstI];
    assert SiteMap(search) == Register(map[8 := PstI, 29 := PstI], EcoRV, [17]);
    DigestOfThreeSites(search, Site(8, PstI), Site(17, EcoRV), Site(29, PstI));
  }

  /** With two enzymes, a fragment with the same enzyme at both ends is still
      yielded. */
  lemma SameEnzymeEndsKept()
    ensures DigestFragments([SearchHit(PstI, [8, 19]), SearchHit(EcoRV, [40])]) ==
            [Fragment(2, 19, PstI, PstI), Fragment(13, 42, PstI, EcoRV)]
  {
    var search := [SearchHit(PstI, [8, 19]), SearchHit(EcoRV, [40])];
    assert search[..1] == [SearchHit(PstI, [8, 19])];
    assert search[..1][..0] == [];
    assert SiteMap(search[..1]) == map[8 := PstI, 19 := PstI];
    assert SiteMap(search) == Register(map[8 := PstI, 19 := PstI], EcoRV, [40]);
    DigestOfThreeSites(search, Site(8, PstI), Site(19, PstI), Site(40, EcoRV));
  }
}
