/** What the page shows for the kept rows: the count, one of three messages, the nearest
    three and, for more than three matches, the full list. */
module Report {
  import opened Geo
  import opened Pharmacies
  import opened Ranking

  /** How many of the nearest pharmacies the page lists. */
  const NearestShown := 3

  datatype Option<T> = None | Some(value: T)

  /** The three messages. Only the several-pharmacies message carries the nearest list,
      and the full list only when it is offered. */
  datatype Verdict =
    | NoneInRange
    | OnlyOne(only: Match)
    | Several(nearest: seq<Match>, fullList: Option<seq<Match>>)

  /** The page: the headline count and the message chosen from it. */
  datatype Page = Page(count: nat, verdict: Verdict)

  /** The page for the kept rows `matches`, in the order the radius filter produced them. */
  function Classify(matches: seq<Match>): (p: Page)
    ensures p.count == |matches|
    ensures p.verdict.NoneInRange? <==> |matches| == 0
    ensures p.verdict.OnlyOne? <==> |matches| == 1
    ensures p.verdict.OnlyOne? ==> p.verdict.only == matches[0]
    ensures p.verdict.Several? <==> |matches| >= 2
    ensures p.verdict.Several? ==>
              var near := p.verdict.nearest;
              && |near| == Min(NearestShown, |matches|)
              && multiset(near) <= multiset(matches)
              && SortedByDistance(near)
              && (forall x, y :: x in multiset(matches) - multiset(near) && y in near ==> y.distance <= x.distance)
              && (p.verdict.fullList.Some? <==> |matches| > NearestShown)
              && (p.verdict.fullList.Some? ==> p.verdict.fullList.value == matches)
  {
    var verdict :=
      if |matches| == 0 then NoneInRange
      else if |matches| == 1 then OnlyOne(matches[0])
      else Several(Nearest(NearestShown, matches),
                   if |matches| > NearestShown then Some(matches) else None);
    Page(|matches|, verdict)
  }

  /** With several matches every one of them reaches the user: either the full list is
      offered, or the nearest list already holds them all. When the full list is offered,
      the nearest list alone would have hidden some. */
  lemma SeveralShowsEveryMatch(matches: seq<Match>)
    requires |matches| >= 2
    ensures var v := Classify(matches).verdict;
            && (v.fullList.None? ==> multiset(v.nearest) == multiset(matches))
            && (v.fullList.Some? ==> |v.nearest| < |matches|)
  {
    var v := Classify(matches).verdict;
    if v.fullList.None? {
      NearestTakesAllWhenFew(NearestShown, matches);
    }
  }

  /** The whole page: keep the pharmacies, keep those within the radius, choose the message. */
  method Search(sheet: seq<Row>, user: Point, radiusKm: real, geodesic: Geodesic) returns (page: Page)
    ensures page == Classify(WithinRadius(PharmaciesOnly(sheet), user, radiusKm, geodesic))
    ensures page.verdict.NoneInRange? <==>
              forall row :: row in sheet && row.category == PharmacyCategory ==> !InRadius(row, user, radiusKm, geodesic)
    ensures page.verdict.OnlyOne? ==>
              var only := page.verdict.only.row;
              only in sheet && only.category == PharmacyCategory && InRadius(only, user, radiusKm, geodesic)
  {
    var pharmacies := PharmaciesOnly(sheet);
    var matches := FilterByRadius(pharmacies, user, radiusKm, geodesic);
    page := Classify(matches);
    if !page.verdict.NoneInRange? {
      var m := matches[0];
      KeptIffWithin(pharmacies, m.row, user, radiusKm, geodesic);
    } else {
      forall row | row in sheet && row.category == PharmacyCategory
        ensures !InRadius(row, user, radiusKm, geodesic)
      {
        KeptIffWithin(pharmacies, row, user, radiusKm, geodesic);
      }
    }
  }
}
