/** The rows of the amenities sheet, the category filter and the radius filter. */
module Pharmacies {
  import opened Geo

  /** The only category the page keeps. */
  const PharmacyCategory := "pharmacies"

  /** One row of the amenities sheet (its Name, Category, Latitude and Longitude columns). */
  datatype Row = Row(name: string, category: string, lat: real, lon: real)
  {
    function Location(): Point { Point(lat, lon) }
  }

  /** A row kept by the radius filter: the row as it was, plus the distance column
      holding the distance rounded to two decimals (in hundredths of a kilometre). */
  datatype Match = Match(row: Row, distance: int)

  // ---------------------------------------------------------------------------
  // Category filter
  // ---------------------------------------------------------------------------

  /** The sheet restricted to the rows whose Category is "pharmacies". */
  function PharmaciesOnly(rows: seq<Row>): (r: seq<Row>)
    ensures |r| <= |rows|
    ensures forall row :: row in r <==> row in rows && row.category == PharmacyCategory
  {
    if rows == [] then []
    else (if rows[0].category == PharmacyCategory then [rows[0]] else []) + PharmaciesOnly(rows[1..])
  }

  /** The category filter keeps the sheet's order: filtering two halves and joining them
      is filtering the whole. */
  lemma {:induction false} PharmaciesOnlyAppend(a: seq<Row>, b: seq<Row>)
    ensures PharmaciesOnly(a + b) == PharmaciesOnly(a) + PharmaciesOnly(b)
  {
    if a == [] {
      assert a + b == b;
    } else {
      assert (a + b)[1..] == a[1..] + b;
      PharmaciesOnlyAppend(a[1..], b);
    }
  }

  // ---------------------------------------------------------------------------
  // Radius filter
  // ---------------------------------------------------------------------------

  /** The inclusion test: the UNROUNDED distance from the user is at most the radius.
      A row that passes never shows a distance above the radius rounded the same way. */
  predicate InRadius(row: Row, user: Point, radiusKm: real, geodesic: Geodesic): (within: bool)
    ensures within ==> RoundHundredths(geodesic(user, row.Location())) <= RoundHundredths(radiusKm)
  {
    geodesic(user, row.Location()) <= radiusKm
  }

  /** The entry the filter makes of a kept row: the row unchanged, and its distance from
      the user rounded to two decimals. */
  function Tag(row: Row, user: Point, geodesic: Geodesic): (m: Match)
    ensures m.row == row
    ensures IsRoundedHundredths(geodesic(user, row.Location()), m.distance)
  {
    Match(row, RoundHundredths(geodesic(user, row.Location())))
  }

  /** What the radius filter yields for `rows`, defined from the last row backwards
      as the loop appends to its list. */
  function WithinRadius(rows: seq<Row>, user: Point, radiusKm: real, geodesic: Geodesic): (r: seq<Match>)
    ensures |r| <= |rows|
    ensures forall m :: m in r ==>
              m.row in rows && InRadius(m.row, user, radiusKm, geodesic) && m == Tag(m.row, user, geodesic)
  {
    if rows == [] then []
    else
      var last := rows[|rows| - 1];
      WithinRadius(rows[..|rows| - 1], user, radiusKm, geodesic)
        + (if InRadius(last, user, radiusKm, geodesic) then [Tag(last, user, geodesic)] else [])
  }

  /** The radius filter: walk the rows in order and append every row within the radius,
      together with its rounded distance. */
  method FilterByRadius(rows: seq<Row>, user: Point, radiusKm: real, geodesic: Geodesic)
    returns (matches: seq<Match>)
    ensures matches == WithinRadius(rows, user, radiusKm, geodesic)
  {
    matches := [];
    for i := 0 to |rows|
      invariant matches == WithinRadius(rows[..i], user, radiusKm, geodesic)
    {
      var row := rows[i];
      var distance := geodesic(user, row.Location());
      if distance <= radiusKm {
        matches := matches + [Match(row, RoundHundredths(distance))];
      }
      assert rows[..i + 1][..i] == rows[..i];
    }
    assert rows[..|rows|] == rows;
  }

  /** A row is kept if and only if it is in the input and its unrounded distance is at
      most the radius (a row at exactly the radius is kept). */
  lemma {:induction false} KeptIffWithin(rows: seq<Row>, row: Row, user: Point, radiusKm: real, geodesic: Geodesic)
    ensures Tag(row, user, geodesic) in WithinRadius(rows, user, radiusKm, geodesic)
            <==> row in rows && InRadius(row, user, radiusKm, geodesic)
  {
    if rows != [] && row in rows && InRadius(row, user, radiusKm, geodesic) {
      var init := rows[..|rows| - 1];
      if row != rows[|rows| - 1] {
        assert rows == init + [rows[|rows| - 1]];
        assert row in init;
        KeptIffWithin(init, row, user, radiusKm, geodesic);
      }
    }
  }

  /** The radius filter keeps the input order: filtering two halves and joining them is
      filtering the whole. */
  lemma {:induction false} WithinRadiusAppend(a: seq<Row>, b: seq<Row>, user: Point, radiusKm: real, geodesic: Geodesic)
    ensures WithinRadius(a + b, user, radiusKm, geodesic)
            == WithinRadius(a, user, radiusKm, geodesic) + WithinRadius(b, user, radiusKm, geodesic)
  {
    if b == [] {
      assert a + b == a;
    } else {
      var init := b[..|b| - 1];
      assert (a + b)[..|a + b| - 1] == a + init;
      WithinRadiusAppend(a, init, user, radiusKm, geodesic);
    }
  }

  /** A wider radius keeps every row a narrower one keeps. */
  lemma {:induction false} RadiusMonotone(rows: seq<Row>, user: Point, narrowKm: real, wideKm: real, geodesic: Geodesic)
    requires narrowKm <= wideKm
    ensures forall m :: m in WithinRadius(rows, user, narrowKm, geodesic)
                        ==> m in WithinRadius(rows, user, wideKm, geodesic)
  {
    forall m | m in WithinRadius(rows, user, narrowKm, geodesic)
      ensures m in WithinRadius(rows, user, wideKm, geodesic)
    {
      KeptIffWithin(rows, m.row, user, wideKm, geodesic);
    }
  }

  /** When the radius is a whole number of hundredths (the slider moves in steps of 0.5),
      no kept row shows a rounded distance beyond the radius. */
  lemma ShownDistanceWithinRadius(rows: seq<Row>, user: Point, radiusKm: real, geodesic: Geodesic, m: Match)
    requires (radiusKm * 100.0).Floor as real == radiusKm * 100.0
    requires m in WithinRadius(rows, user, radiusKm, geodesic)
    ensures m.distance as real <= radiusKm * 100.0
  {
    var k := (radiusKm * 100.0).Floor;
    assert k as real / 100.0 == radiusKm;
    RoundMonotone(geodesic(user, m.row.Location()), radiusKm);
    RoundExact(k);
  }

  /** Inclusion is decided on the unrounded distance, whatever the distance function: a row
      at 5.004 km is dropped from a 5 km search although its shown distance, 5.00, equals
      that of a kept row at exactly 5 km. */
  lemma RoundedDistanceDoesNotDecide(user: Point, geodesic: Geodesic, atEdge: Row, beyond: Row)
    requires geodesic(user, atEdge.Location()) == 5.0
    requires geodesic(user, beyond.Location()) == 5.004
    ensures WithinRadius([atEdge, beyond], user, 5.0, geodesic) == [Match(atEdge, 500)]
    ensures Tag(beyond, user, geodesic).distance == Tag(atEdge, user, geodesic).distance == 500
  {
    RoundExact(500);
    assert RoundHundredths(5.004) == 500 by {
      RoundedHundredthsUnique(5.004, 500, RoundHundredths(5.004));
    }
    assert [atEdge, beyond][..1] == [atEdge];
    assert [atEdge][..0] == [];
  }
}
