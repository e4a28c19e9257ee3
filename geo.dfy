/** The GeoJSON-like dataset the pipeline transforms: a feature collection whose
    features carry a geometry and an optional bag of properties. */
module Geo {
  import opened JsArray

  /** A GeoJSON position (RFC 7946, section 3.1.1): longitude, latitude and an
      optional altitude, so at least two numbers. */
  type Position = c: seq<real> | |c| >= 2 witness [0.0, 0.0]

  /** The geometries the tracks use: points, and the line and area shapes that
      every handler here leaves alone. */
  datatype Geometry =
    | Point(coordinates: Position)
    | LineString(path: seq<Position>)
    | Polygon(rings: seq<seq<Position>>)

  /** A JSON scalar as found in feature properties; `Undefined` is what reading
      a missing key yields. */
  datatype Json = Undefined | Null | Bool(b: bool) | Num(n: real) | Str(s: string)

  /** `properties` is either an object or null. */
  datatype Feature = Feature(geometry: Geometry, properties: Option<map<string, Json>>)

  /** The dataset; `name` is the optional top-level name a loaded file may carry. */
  datatype FeatureCollection = FeatureCollection(name: Option<string>, features: seq<Feature>)

  /** `properties[key]`: the value, or undefined for a missing key. */
  function Get(properties: map<string, Json>, key: string): Json
  {
    if key in properties then properties[key] else Undefined
  }
}
