/** GPS coordinates from degrees, minutes and seconds to signed decimal
    degrees (`src/util/dms2deg.ts`), over exact reals. */
module Dms {
  import opened Wrappers

  /** `d + m / 60 + s / 3600`. */
  function Magnitude(d: real, m: real, s: real): real {
    d + m / 60.0 + s / 3600.0
  }

  /** `convertDMSToDegree(coords, isSOrW)`: no value unless there are exactly
      three components; the southern and western hemispheres are negative. */
  function ConvertDmsToDegree(coords: Option<seq<real>>, isSOrW: bool): (r: Option<real>)
    ensures r.None? <==> coords.None? || |coords.value| != 3
    ensures r.Some? && !isSOrW ==> r.value == Magnitude(coords.value[0], coords.value[1], coords.value[2])
    ensures r.Some? && isSOrW ==> r.value == -Magnitude(coords.value[0], coords.value[1], coords.value[2])
  {
    if coords.None? || |coords.value| != 3 then None
    else
      var c := coords.value;
      Some((if isSOrW then -1.0 else 1.0) * Magnitude(c[0], c[1], c[2]))
  }

  function Negate(r: Option<real>): Option<real> {
    match r
    case None => None
    case Some(x) => Some(-x)
  }

  /** What `getDegLatLngFromExif` returns. */
  datatype LatLng = LatLng(decLng: Option<real>, decLat: Option<real>)

  /** `getDegLatLngFromExif`: the longitude is negated exactly when its ref
      is `"W"` and the latitude exactly when its ref is `"S"`; any other ref,
      lower case included, reads as east or north. */
  function GetDegLatLngFromExif(lng: Option<seq<real>>, lat: Option<seq<real>>, lngRef: string, latRef: string)
    : (r: LatLng)
    ensures r.decLng == (if lngRef == "W" then Negate(ConvertDmsToDegree(lng, false)) else ConvertDmsToDegree(lng, false))
    ensures r.decLat == (if latRef == "S" then Negate(ConvertDmsToDegree(lat, false)) else ConvertDmsToDegree(lat, false))
  {
    LatLng(ConvertDmsToDegree(lng, lngRef == "W"), ConvertDmsToDegree(lat, latRef == "S"))
  }
}
