/**
 * The distance matrix builder: the pairwise road-distance estimate between
 * every two stops, from their coordinates.
 */
module Haversine {

  /** A coordinate `[latitude, longitude]` in degrees. */
  datatype Coord = Coord(lat: real, lon: real)

  /** One entry of the ordered stop dictionary: a stop's name and coordinate. */
  datatype Location = Location(name: string, coord: Coord)

  /** Road distance on campus is taken as the straight-line distance times 1.35. */
  const HaversineMultiplier: real := 1.35

  /**
   * Estimated road distance in metres between two coordinates.  The
   * great-circle distance (the trigonometric haversine formula on floats)
   * is supplied by the caller as `greatCircle`; this scales it by
   * `HaversineMultiplier`.
   */
  function HaversineDistance(greatCircle: (Coord, Coord) -> real, c1: Coord, c2: Coord): (d: real)
    ensures greatCircle(c1, c2) >= 0.0 ==> d >= greatCircle(c1, c2)
    ensures d == 0.0 <==> greatCircle(c1, c2) == 0.0
    ensures d > 0.0 <==> greatCircle(c1, c2) > 0.0
  {
    greatCircle(c1, c2) * HaversineMultiplier
  }

  /** The stop names are unique, as the keys of a dictionary are. */
  predicate IsDictionary(locations: seq<Location>)
  {
    forall a, b :: 0 <= a < b < |locations| ==> locations[a].name != locations[b].name
  }

  /**
   * What the fill has written into cell `(p, q)` once every row before `i`
   * and the columns `i+1 .. j-1` of row `i` are done: the distance for a
   * pair already visited (in either orientation), and the initial zero
   * everywhere else.
   */
  ghost function Filled(greatCircle: (Coord, Coord) -> real, coords: seq<Coord>, p: nat, q: nat, i: nat, j: nat): real
    requires p < |coords| && q < |coords|
  {
    if p < q && (p < i || (p == i && q < j)) then HaversineDistance(greatCircle, coords[p], coords[q])
    else if q < p && (q < i || (q == i && p < j)) then HaversineDistance(greatCircle, coords[q], coords[p])
    else 0.0
  }

  /**
   * Builds the distance matrix of the stops in dictionary order, with the
   * list of names and the list of coordinates that define the index of
   * every stop.  Each unordered pair `i < j` is computed once and written
   * to both `(i, j)` and `(j, i)`; the diagonal keeps its initial zero.
   */
  method CalculateDistanceMatrix(greatCircle: (Coord, Coord) -> real, locations: seq<Location>)
    returns (matrix: array2<real>, names: seq<string>, coords: seq<Coord>)
    requires IsDictionary(locations)
    ensures |names| == |locations| && |coords| == |locations|
    ensures forall k :: 0 <= k < |locations| ==> names[k] == locations[k].name && coords[k] == locations[k].coord
    ensures fresh(matrix)
    ensures matrix.Length0 == |names| && matrix.Length1 == |names|
    ensures forall i :: 0 <= i < |names| ==> matrix[i, i] == 0.0
    ensures forall i, j :: 0 <= i < |names| && 0 <= j < |names| ==> matrix[i, j] == matrix[j, i]
    ensures forall i, j :: 0 <= i < j < |names| ==> matrix[i, j] == HaversineDistance(greatCircle, coords[i], coords[j])
  {
    names := seq(|locations|, k requires 0 <= k < |locations| => locations[k].name);
    coords := seq(|locations|, k requires 0 <= k < |locations| => locations[k].coord);
    var n := |names|;
    matrix := new real[n, n]((_, _) => 0.0);
    for i := 0 to n
      invariant forall p, q :: 0 <= p < n && 0 <= q < n ==> matrix[p, q] == Filled(greatCircle, coords, p, q, i, 0)
    {
      for j := i + 1 to n
        invariant forall p, q :: 0 <= p < n && 0 <= q < n ==> matrix[p, q] == Filled(greatCircle, coords, p, q, i, j)
      {
        var dist := HaversineDistance(greatCircle, coords[i], coords[j]);
        matrix[i, j] := dist;
        matrix[j, i] := dist;
      }
    }
  }
}
