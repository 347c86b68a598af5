/** Distance-matrix construction and the interpretation of the two road-network
    services' responses (src/distance_calculator.py).

    The great-circle formula is not modelled: the point distance is a function
    parameter `dist`. Number formatting (Python's `f"{x}"` on a float) is a
    function parameter `fmt`. The HTTP exchange itself is not modelled: the
    decoders take the already received response as a value. */
module DistanceCalculator {
  import opened Optional
  import Text

  /** A location as the source passes it around: the pair (latitude, longitude). */
  datatype Coord = Coord(lat: real, lon: real)

  // ---------------------------------------------------------------------------
  // Geometric matrix (create_distance_matrix)
  // ---------------------------------------------------------------------------

  /** `m` is the matrix of `locations` under `dist`: one row per location, one
      entry per location in each row, zero on the diagonal and the point
      distance everywhere else. */
  ghost predicate IsPointMatrix(m: seq<seq<real>>, locations: seq<Coord>, dist: (Coord, Coord) -> real)
  {
    && |m| == |locations|
    && (forall i :: 0 <= i < |m| ==> |m[i]| == |locations|)
    && (forall i :: 0 <= i < |m| ==> m[i][i] == 0.0)
    && (forall i, j :: 0 <= i < |m| && 0 <= j < |m| && i != j ==>
          m[i][j] == dist(locations[i], locations[j]))
  }

  /** Builds the square matrix of pairwise point distances row by row. */
  method CreateDistanceMatrix(locations: seq<Coord>, dist: (Coord, Coord) -> real)
    returns (matrix: seq<seq<real>>)
    ensures IsPointMatrix(matrix, locations, dist)
  {
    var size := |locations|;
    matrix := [];
    for i := 0 to size
      invariant |matrix| == i
      invariant forall a :: 0 <= a < i ==> |matrix[a]| == size
      invariant forall a :: 0 <= a < i ==> matrix[a][a] == 0.0
      invariant forall a, b :: 0 <= a < i && 0 <= b < size && a != b ==>
                  matrix[a][b] == dist(locations[a], locations[b])
    {
      var row: seq<real> := [];
      for j := 0 to size
        invariant |row| == j
        invariant i < j ==> row[i] == 0.0
        invariant forall b :: 0 <= b < j && b != i ==> row[b] == dist(locations[i], locations[b])
      {
        var d := if i != j then dist(locations[i], locations[j]) else 0.0;
        row := row + [d];
      }
      matrix := matrix + [row];
    }
  }

  /** The matrix is symmetric whenever the point distance is. */
  lemma PointMatrixSymmetric(m: seq<seq<real>>, locations: seq<Coord>, dist: (Coord, Coord) -> real)
    requires IsPointMatrix(m, locations, dist)
    requires forall a, b :: dist(a, b) == dist(b, a)
    ensures forall i, j :: 0 <= i < |m| && 0 <= j < |m| ==> m[i][j] == m[j][i]
  {
    forall i, j | 0 <= i < |m| && 0 <= j < |m| ensures m[i][j] == m[j][i] {
      if i != j {
        assert m[i][j] == dist(locations[i], locations[j]) == dist(locations[j], locations[i]);
      }
    }
  }

  /** Locations that all coincide give a matrix of zeros when the point
      distance of a point to itself is zero. */
  lemma PointMatrixOfOnePlace(m: seq<seq<real>>, locations: seq<Coord>, dist: (Coord, Coord) -> real)
    requires IsPointMatrix(m, locations, dist)
    requires forall k :: 0 <= k < |locations| ==> locations[k] == locations[0]
    requires forall a :: dist(a, a) == 0.0
    ensures forall i, j :: 0 <= i < |m| && 0 <= j < |m| ==> m[i][j] == 0.0
  {
    forall i, j | 0 <= i < |m| && 0 <= j < |m| ensures m[i][j] == 0.0 {
      if i != j {
        assert locations[i] == locations[0] == locations[j];
      }
    }
  }

  // ---------------------------------------------------------------------------
  // Batched matrix service (get_google_distance_matrix)
  // ---------------------------------------------------------------------------

  /** One entry of `rows[r].elements`. `status` is read with `.get` and may be
      absent; `distance` stands for `element["distance"]["value"]`, a lookup
      that fails when the key is missing. */
  datatype Element = Element(status: Option<string>, distance: Option<real>)

  /** One entry of `rows`; `elements` is read with `[]`. */
  datatype Row = Row(elements: Option<seq<Element>>)

  /** The decoded JSON body: `status` is read with `.get`, `rows` with `[]`. */
  datatype MatrixResponse = MatrixResponse(status: Option<string>, rows: Option<seq<Row>>)

  /** A decoded entry: a distance in meters, or the "unreachable" sentinel that
      the source writes as `float('inf')`. */
  datatype Cost = Finite(meters: real) | Inf

  /** What the decoding half of `get_google_distance_matrix` can end in:
      `None` (`Unavailable`), a `KeyError` escaping to the caller (`Raised`),
      or a matrix. */
  datatype MatrixOutcome = Unavailable | Raised | Decoded(matrix: seq<seq<Cost>>)

  const OK := "OK"

  /** The transport code and the top-level status both report success. */
  predicate Accepted(statusCode: int, data: MatrixResponse) {
    statusCode == 200 && data.status == Some(OK)
  }

  /** Every key the decoding loop reads with `[]` is there. */
  predicate RowReadable(row: Row) {
    && row.elements.Some?
    && forall e :: 0 <= e < |row.elements.value| && row.elements.value[e].status == Some(OK) ==>
         row.elements.value[e].distance.Some?
  }

  predicate Readable(data: MatrixResponse) {
    data.rows.Some? && forall r :: 0 <= r < |data.rows.value| ==> RowReadable(data.rows.value[r])
  }

  /** The cost an element decodes to. */
  function ElementCost(e: Element): (c: Cost)
    requires e.status == Some(OK) ==> e.distance.Some?
    ensures c.Finite? <==> e.status == Some(OK)
    ensures c.Finite? ==> Some(c.meters) == e.distance
  {
    if e.status == Some(OK) then Finite(e.distance.value) else Inf
  }

  /** `costs` mirrors the row element for element, in order. */
  ghost predicate RowMirrors(costs: seq<Cost>, row: Row)
    requires RowReadable(row)
  {
    && |costs| == |row.elements.value|
    && forall e :: 0 <= e < |costs| ==> costs[e] == ElementCost(row.elements.value[e])
  }

  /** `m` mirrors the response: row for row and element for element, in order. */
  ghost predicate Mirrors(m: seq<seq<Cost>>, rows: seq<Row>)
    requires forall r :: 0 <= r < |rows| ==> RowReadable(rows[r])
  {
    |m| == |rows| && forall r :: 0 <= r < |rows| ==> RowMirrors(m[r], rows[r])
  }

  /** Interprets a received response: `None` unless both the transport code
      and the top-level status say success, a propagated `KeyError` when a key
      read with `[]` is missing, and otherwise the element-wise matrix. */
  method DecodeMatrixResponse(statusCode: int, data: MatrixResponse) returns (r: MatrixOutcome)
    ensures r.Unavailable? <==> !Accepted(statusCode, data)
    ensures r.Raised? <==> Accepted(statusCode, data) && !Readable(data)
    ensures r.Decoded? ==> Readable(data) && Mirrors(r.matrix, data.rows.value)
  {
    if statusCode != 200 {
      return Unavailable;
    }
    if data.status != Some(OK) {
      return Unavailable;
    }
    if data.rows.None? {
      return Raised;
    }
    var rows := data.rows.value;
    var matrix: seq<seq<Cost>> := [];
    for k := 0 to |rows|
      invariant forall q :: 0 <= q < k ==> RowReadable(rows[q])
      invariant |matrix| == k
      invariant forall q :: 0 <= q < k ==> RowMirrors(matrix[q], rows[q])
    {
      if rows[k].elements.None? {
        return Raised;
      }
      var elements := rows[k].elements.value;
      var costs: seq<Cost> := [];
      for e := 0 to |elements|
        invariant forall f :: 0 <= f < e && elements[f].status == Some(OK) ==> elements[f].distance.Some?
        invariant |costs| == e
        invariant forall f :: 0 <= f < e ==> costs[f] == ElementCost(elements[f])
      {
        if elements[e].status == Some(OK) {
          if elements[e].distance.None? {
            return Raised;
          }
          costs := costs + [Finite(elements[e].distance.value)];
        } else {
          costs := costs + [Inf];
        }
      }
      matrix := matrix + [costs];
    }
    return Decoded(matrix);
  }

  /** A decoded matrix is square exactly when the response is: the decoder
      itself never checks the shape against the requested origins and
      destinations, so a ragged response gives a ragged matrix. */
  lemma DecodedShapeIsResponseShape(m: seq<seq<Cost>>, rows: seq<Row>, n: nat)
    requires forall r :: 0 <= r < |rows| ==> RowReadable(rows[r])
    requires Mirrors(m, rows)
    ensures (|m| == n && forall r :: 0 <= r < |m| ==> |m[r]| == n) <==>
            (|rows| == n && forall r :: 0 <= r < |rows| ==> |rows[r].elements.value| == n)
  {
  }

  /** The value written between two coordinates of one point, `f"{lat},{lon}"`. */
  function LatLon(c: Coord, fmt: real -> string): string {
    fmt(c.lat) + "," + fmt(c.lon)
  }

  function LatLons(points: seq<Coord>, fmt: real -> string): (parts: seq<string>)
    ensures |parts| == |points|
    ensures forall k :: 0 <= k < |points| ==> parts[k] == LatLon(points[k], fmt)
  {
    if |points| == 0 then [] else [LatLon(points[0], fmt)] + LatLons(points[1..], fmt)
  }

  /** `"|".join(f"{lat},{lon}" for lat, lon in points)`. */
  function PointList(points: seq<Coord>, fmt: real -> string): string {
    Text.Join(LatLons(points, fmt), '|')
  }

  const MatrixEndpoint := "https://maps.googleapis.com/maps/api/distancematrix/json"

  /** The request URL of the batched service. */
  function MatrixUrl(origins: seq<Coord>, destinations: seq<Coord>, apiKey: string, fmt: real -> string): string {
    MatrixEndpoint + "?origins=" + PointList(origins, fmt)
      + "&destinations=" + PointList(destinations, fmt) + "&key=" + apiKey
  }

  /** A point list can be read back: split on `|` it gives one piece per point,
      in order, and each piece split on `,` gives the latitude and then the
      longitude, provided the formatted numbers contain neither separator.
      An empty point list is the empty string. */
  lemma {:induction false} PointListRoundTrip(points: seq<Coord>, fmt: real -> string)
    requires forall x :: '|' !in fmt(x) && ',' !in fmt(x)
    ensures |points| == 0 ==> PointList(points, fmt) == ""
    ensures |points| > 0 ==>
      var pieces := Text.Split(PointList(points, fmt), '|');
      && |pieces| == |points|
      && forall k :: 0 <= k < |points| ==>
           Text.Split(pieces[k], ',') == [fmt(points[k].lat), fmt(points[k].lon)]
  {
    var parts := LatLons(points, fmt);
    if |points| > 0 {
      forall k | 0 <= k < |parts| ensures '|' !in parts[k] {
        assert parts[k] == fmt(points[k].lat) + "," + fmt(points[k].lon);
      }
      Text.SplitJoin(parts, '|');
      forall k | 0 <= k < |points|
        ensures Text.Split(parts[k], ',') == [fmt(points[k].lat), fmt(points[k].lon)]
      {
        var lat, lon := fmt(points[k].lat), fmt(points[k].lon);
        assert parts[k] == lat + [','] + lon;
        Text.SplitAfter(lat, ',', lon);
        Text.SplitWithout(lon, ',');
      }
    }
  }

  /** The query of the request URL holds exactly three parameters, origins,
      destinations and key in that order, provided neither the formatted
      numbers nor the key contain `&`. */
  lemma MatrixUrlQuery(origins: seq<Coord>, destinations: seq<Coord>, apiKey: string, fmt: real -> string)
    requires forall x :: '&' !in fmt(x)
    requires '&' !in apiKey
    ensures var url := MatrixUrl(origins, destinations, apiKey, fmt);
      var head := MatrixEndpoint + "?";
      && url[..|head|] == head
      && Text.Split(url[|head|..], '&') ==
           ["origins=" + PointList(origins, fmt),
            "destinations=" + PointList(destinations, fmt),
            "key=" + apiKey]
  {
    var o, d := PointList(origins, fmt), PointList(destinations, fmt);
    var params := ["origins=" + o, "destinations=" + d, "key=" + apiKey];
    PointListFree(origins, fmt, '&');
    PointListFree(destinations, fmt, '&');
    assert Text.Free(params, '&');
    Text.SplitJoin(params, '&');
    QueryJoin(o, d, apiKey);
  }

  lemma QueryJoin(o: string, d: string, k: string)
    ensures var head := MatrixEndpoint + "?";
      var url := MatrixEndpoint + "?origins=" + o + "&destinations=" + d + "&key=" + k;
      && url[..|head|] == head
      && url[|head|..] == Text.Join(["origins=" + o, "destinations=" + d, "key=" + k], '&')
  {
    var params := ["origins=" + o, "destinations=" + d, "key=" + k];
    assert params[1..] == [params[1], params[2]];
    assert params[1..][1..] == [params[2]];
    assert Text.Join([params[2]], '&') == params[2];
    assert Text.Join(params[1..], '&') == params[1] + ['&'] + params[2];
    assert Text.Join(params, '&') == params[0] + ['&'] + (params[1] + ['&'] + params[2]);
    assert "?origins=" == "?" + "origins=";
    assert "&destinations=" == "&" + "destinations=";
    assert "&key=" == "&" + "key=";
  }

  lemma PointListFree(points: seq<Coord>, fmt: real -> string, c: char)
    requires c != '|' && c != ','
    requires forall x :: c !in fmt(x)
    ensures c !in PointList(points, fmt)
  {
    var parts := LatLons(points, fmt);
    forall k | 0 <= k < |parts| ensures c !in parts[k] {
      assert parts[k] == fmt(points[k].lat) + "," + fmt(points[k].lon);
    }
    Text.JoinFree(parts, '|', c);
  }

  // ---------------------------------------------------------------------------
  // Per-pair routing service (get_osrm_distance)
  // ---------------------------------------------------------------------------

  const RoutePath := "/route/v1/driving/"
  const RouteQuery := "?overview=false"

  /** The request URL for the driving distance from `c1` to `c2`. */
  function RouteUrl(server: string, c1: Coord, c2: Coord, fmt: real -> string): string {
    server + RoutePath + fmt(c1.lon) + "," + fmt(c1.lat) + ";" + fmt(c2.lon) + "," + fmt(c2.lat) + RouteQuery
  }

  /** The URL is the server, the driving-route path, the two points and the
      no-geometry query; the points are separated by `;` and each is written
      longitude first, then latitude (the reverse of the batched service's
      order), provided the formatted numbers contain neither separator. */
  lemma RouteUrlLonLat(server: string, c1: Coord, c2: Coord, fmt: real -> string)
    requires forall x :: ';' !in fmt(x) && ',' !in fmt(x)
    ensures var url := RouteUrl(server, c1, c2, fmt);
      var lo := |server + RoutePath|;
      var hi := |url| - |RouteQuery|;
      && lo <= hi
      && url[..lo] == server + RoutePath
      && url[hi..] == RouteQuery
      && var points := Text.Split(url[lo..hi], ';');
         && |points| == 2
         && Text.Split(points[0], ',') == [fmt(c1.lon), fmt(c1.lat)]
         && Text.Split(points[1], ',') == [fmt(c2.lon), fmt(c2.lat)]
  {
    var url := RouteUrl(server, c1, c2, fmt);
    var p1 := fmt(c1.lon) + [','] + fmt(c1.lat);
    var p2 := fmt(c2.lon) + [','] + fmt(c2.lat);
    assert url == (server + RoutePath) + (p1 + [';'] + p2) + RouteQuery;
    var lo := |server + RoutePath|;
    var hi := |url| - |RouteQuery|;
    assert url[lo..hi] == p1 + [';'] + p2;
    Text.SplitAfter(p1, ';', p2);
    Text.SplitWithout(p2, ';');
    Text.SplitAfter(fmt(c1.lon), ',', fmt(c1.lat));
    Text.SplitWithout(fmt(c1.lat), ',');
    Text.SplitAfter(fmt(c2.lon), ',', fmt(c2.lat));
    Text.SplitWithout(fmt(c2.lat), ',');
  }

  /** One entry of `routes`; `distance` is read with `[]`. */
  datatype RouteEntry = RouteEntry(distance: Option<real>)

  /** The decoded JSON body; `routes` is absent when the key is missing. */
  datatype RouteBody = RouteBody(routes: Option<seq<RouteEntry>>)

  /** What the per-pair request can give back: an exception from the transport,
      or a reply with its status code and its body (`None` when the body is not
      valid JSON). */
  datatype RouteReply = TransportFailure | Reply(statusCode: int, body: Option<RouteBody>)

  /** `raise_for_status` raises for client and server errors (4xx and 5xx). */
  predicate HttpError(code: int) {
    400 <= code < 600
  }

  /** The reply reached the body check: no exception was raised before it. */
  predicate BodyRead(reply: RouteReply) {
    reply.Reply? && !HttpError(reply.statusCode) && reply.body.Some?
  }

  /** The body has a first route that carries a distance. */
  predicate HasFirstDistance(body: RouteBody) {
    body.routes.Some? && |body.routes.value| > 0 && body.routes.value[0].distance.Some?
  }

  /** Interprets the reply to one per-pair request: the first route's distance,
      and `None` for every failure, since every exception is caught. */
  function RouteDistance(reply: RouteReply): (r: Option<real>)
    ensures r.Some? <==> BodyRead(reply) && HasFirstDistance(reply.body.value)
    ensures r.Some? ==> Some(r.value) == reply.body.value.routes.value[0].distance
  {
    match reply
    case TransportFailure => None
    case Reply(code, body) =>
      if HttpError(code) then None
      else if body.None? then None
      else if body.value.routes.Some? && |body.value.routes.value| > 0 then
        // `data["routes"][0]["distance"]`; a missing key is caught like any other error
        body.value.routes.value[0].distance
      else None
  }

  /** Only the first route counts: alternatives after it never change the
      answer, and an empty or missing route list answers `None`. */
  lemma RouteDistanceFirstOnly(code: int, first: RouteEntry, more: seq<RouteEntry>)
    ensures RouteDistance(Reply(code, Some(RouteBody(Some([first] + more))))) ==
            RouteDistance(Reply(code, Some(RouteBody(Some([first])))))
    ensures RouteDistance(Reply(code, Some(RouteBody(Some([]))))) == None
    ensures RouteDistance(Reply(code, Some(RouteBody(None)))) == None
  {
  }
}
