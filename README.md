# Pharmacy proximity page: a Dafny model

The page reads a sheet of amenities and keeps the rows whose `Category` is
`pharmacies`. It takes a user location and a search radius in kilometres. It walks
the pharmacies in sheet order and keeps every one whose geodesic distance from the
user is at most the radius. Each kept row is stored with an added column holding
that distance rounded to two decimals. The page then shows how many were kept and
one of three messages: none in range, exactly one (named), or several. With several,
it lists the three nearest by rounded distance. With more than three, it also offers
the full list.

This project models that computation and proves its properties:

- `geo.dfy` (module `Geo`): points, the geodesic distance as a parameter, and
  `round(d, 2)` as whole hundredths of a kilometre, rounding to nearest with ties to even.
- `pharmacies.dfy` (module `Pharmacies`): sheet rows, the category filter (a
  function), and the radius filter. The radius filter is a method with a loop. It is
  proved equal to a specification function, and the function's properties are lemmas.
- `ranking.dfy` (module `Ranking`): the nearest-k selection, proved to be a valid
  k-smallest selection.
- `report.dfy` (module `Report`): the three-way message choice, the nearest-three list,
  the full-list threshold, and `Search`, which composes the whole page.

The kept list stays in sheet order; only the nearest-three list is sorted. Inclusion is
tested on the unrounded distance, and ranking uses the rounded one, so the model keeps
the two values apart.

## Model

| member | source | states |
|---|---|---|
| `Geo.RoundHundredths` | app.py:26 | the shown distance is the whole number of hundredths nearest to the distance, ties going to the even one |
| `Geo.RoundedHundredthsUnique` | app.py:26 | that characterisation of rounding admits exactly one result |
| `Geo.RoundExact` | app.py:26 | a distance that already has two decimals is shown unchanged |
| `Geo.RoundMonotone` | app.py:26 | rounding never reverses the order of two distances |
| `Pharmacies.PharmaciesOnly` | app.py:10 | a row is kept iff it is in the sheet and its Category is "pharmacies"; the result is no longer than the sheet |
| `Pharmacies.PharmaciesOnlyAppend` | app.py:10 | the category filter keeps sheet order: filtering a concatenation is concatenating the filtered parts |
| `Pharmacies.InRadius` | app.py:23-24 | the inclusion test: the unrounded distance from the user is at most the radius; a row that passes never shows a rounded distance above the radius rounded the same way |
| `Pharmacies.Tag` | app.py:25-26 | the kept entry is the row unchanged plus a distance column holding the distance rounded to two decimals |
| `Pharmacies.WithinRadius` | app.py:20-27 | the result is no longer than the input; every entry is an input row within the radius, unchanged, paired with its rounded distance |
| `Pharmacies.FilterByRadius` | app.py:20-27 | the loop that starts empty and appends each row within the radius yields exactly `WithinRadius` of the rows (empty input gives empty output) |
| `Pharmacies.KeptIffWithin` | app.py:21-24 | a row is kept iff it is in the input and its unrounded distance is at most the radius (boundary inclusive) |
| `Pharmacies.WithinRadiusAppend` | app.py:21-27 | the radius filter keeps the input order: filtering a concatenation is concatenating the filtered parts |
| `Pharmacies.RadiusMonotone` | app.py:24 | every entry kept for a radius is also kept for any larger radius |
| `Pharmacies.ShownDistanceWithinRadius` | app.py:17-26 | when the radius is a whole number of hundredths, as the slider's 0.5 steps make it, no kept row shows a rounded distance beyond the radius |
| `Pharmacies.RoundedDistanceDoesNotDecide` | app.py:23-26 | for any distance function, a row at 5.004 km is dropped from a 5 km search while a row at exactly 5 km is kept, yet both show 5.00: inclusion uses the unrounded distance |
| `Ranking.Insert` | app.py:58 | inserting into a list ordered by rounded distance keeps it ordered and adds exactly the one entry |
| `Ranking.SortByDistance` | app.py:58 | the entries reordered by rounded distance: ordered, and a permutation of the input |
| `Ranking.SortedSplit` | app.py:58 | in an ordered list, no entry after a cut is nearer than an entry before it |
| `Ranking.Nearest` | app.py:58 | `min(k, n)` entries, all from the input (as a sub-multiset), nearest first, and no entry left out is strictly nearer than one taken |
| `Ranking.NearestTakesAllWhenFew` | app.py:58 | with at most k entries, the selection holds every one of them |
| `Report.Classify` | app.py:33-63 | the count is the number of matches; "none" iff 0; "only one" iff 1, naming the first match; "several" iff at least 2, with a valid nearest-three list; the full list is offered iff there are more than 3 matches |
| `Report.SeveralShowsEveryMatch` | app.py:49-65 | with several matches, either the full list is offered or the nearest list already holds every match; when it is offered, the nearest list alone is shorter than the matches |
| `Report.Search` | app.py:10-65 | the page is the message choice over the in-radius pharmacies; "none" iff no pharmacy row of the sheet is within the radius; the single pharmacy named is a pharmacy row of the sheet within the radius |

## Left out

- Streamlit widgets, the markdown and the message texts (app.py:13-17, 33-65). The model
  records which message is chosen and what data it shows, not the strings.
- Reading the sheet with pandas (app.py:6-7). The sheet is an input sequence of rows.
  Columns other than Name, Category, Latitude and Longitude are not modelled. A
  pre-existing column with the same label as the added distance column would be
  overwritten by the source; the model keeps the distance in a separate field.
- The geodesic computation of geopy (app.py:23). It is a parameter of type
  `(Point, Point) -> real`, and no property of it is assumed. Coordinates geopy rejects
  (out-of-range latitude, missing values) raise an error in the source that the page
  does not handle; the model does not include that error.
- Floating point. Distances and the radius are exact reals. `round(d, 2)` is modelled
  as the correctly rounded number of hundredths of the exact distance. Converting that
  number back to a binary float is not modelled.
- The tie order of pandas `nsmallest` (app.py:58). `Ranking.Nearest` takes equally near
  entries in input order. Its contract promises only a valid k-smallest selection.
- The slider bounds on the radius, 1.0 to 15.0 in steps of 0.5 (app.py:17). The filter
  works for any radius; only `ShownDistanceWithinRadius` assumes the radius has two
  decimals, which the slider guarantees.
- Projecting the listings to the Name and distance columns (app.py:60, 65). The model
  lists whole entries.
