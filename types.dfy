/**
 * The label-valued enumerations and the result record shared by the
 * processor, the interpolation engine, the worker and the window.
 * A Python `Enum` built from a label (`InterpolationMethod("Linear")`)
 * either yields the member with that value or raises `ValueError`;
 * the parse functions below return `None` for the raising case.
 */
module Types {
  import opened Wrappers

  datatype InterpolationMethod = Linear | CubicSpline | Quadratic | NearestNeighbor

  datatype TemperatureType = Vapour | Liquid

  /** The `.value` of each interpolation method. */
  function MethodLabel(m: InterpolationMethod): (s: string)
    ensures ParseMethod(s) == Some(m)
  {
    match m
    case Linear => "Linear"
    case CubicSpline => "Cubic Spline"
    case Quadratic => "Quadratic"
    case NearestNeighbor => "Nearest Neighbor"
  }

  /** `InterpolationMethod(s)`: the member whose value is `s`, if any. */
  function ParseMethod(s: string): (r: Option<InterpolationMethod>)
    ensures r.Some? <==> s in MethodLabels()
  {
    if s == "Linear" then Some(Linear)
    else if s == "Cubic Spline" then Some(CubicSpline)
    else if s == "Quadratic" then Some(Quadratic)
    else if s == "Nearest Neighbor" then Some(NearestNeighbor)
    else None
  }

  /** The labels in declaration order, as the window lists them in its combo box. */
  function MethodLabels(): (labels: seq<string>)
    ensures |labels| == 4
    ensures forall i, j :: 0 <= i < j < |labels| ==> labels[i] != labels[j]
  {
    ["Linear", "Cubic Spline", "Quadratic", "Nearest Neighbor"]
  }

  /** The `.value` of each temperature type. */
  function TemperatureLabel(t: TemperatureType): (s: string)
    ensures ParseTemperatureType(s) == Some(t)
  {
    match t
    case Vapour => "Vapour"
    case Liquid => "Liquid"
  }

  /** `TemperatureType(s)`: the member whose value is `s`, if any. */
  function ParseTemperatureType(s: string): (r: Option<TemperatureType>)
    ensures r.Some? <==> s in TemperatureLabels()
  {
    if s == "Vapour" then Some(Vapour)
    else if s == "Liquid" then Some(Liquid)
    else None
  }

  /** The temperature-type labels in declaration order. */
  function TemperatureLabels(): (labels: seq<string>)
    ensures |labels| == 2 && labels[0] != labels[1]
  {
    ["Vapour", "Liquid"]
  }

  /** Parsing is the inverse of labelling: a parsed label is the label of what it parsed to. */
  lemma ParseMethodInverse(s: string)
    ensures ParseMethod(s).Some? ==> MethodLabel(ParseMethod(s).value) == s
  {
  }

  lemma ParseTemperatureTypeInverse(s: string)
    ensures ParseTemperatureType(s).Some? ==> TemperatureLabel(ParseTemperatureType(s).value) == s
  {
  }

  /**
   * The window fills its combo boxes with the labels of every member and
   * hands the selected text to the worker, which parses it back: every
   * entry of either combo box parses, to the member it labels.
   */
  lemma ComboBoxRoundTrip()
    ensures forall i :: 0 <= i < |MethodLabels()| ==>
      ParseMethod(MethodLabels()[i]).Some? && MethodLabel(ParseMethod(MethodLabels()[i]).value) == MethodLabels()[i]
    ensures forall i :: 0 <= i < |TemperatureLabels()| ==>
      ParseTemperatureType(TemperatureLabels()[i]).Some? &&
      TemperatureLabel(ParseTemperatureType(TemperatureLabels()[i]).value) == TemperatureLabels()[i]
  {
    forall i | 0 <= i < |MethodLabels()|
      ensures ParseMethod(MethodLabels()[i]).Some? && MethodLabel(ParseMethod(MethodLabels()[i]).value) == MethodLabels()[i]
    {
      ParseMethodInverse(MethodLabels()[i]);
    }
    forall i | 0 <= i < |TemperatureLabels()|
      ensures ParseTemperatureType(TemperatureLabels()[i]).Some? &&
        TemperatureLabel(ParseTemperatureType(TemperatureLabels()[i]).value) == TemperatureLabels()[i]
    {
      ParseTemperatureTypeInverse(TemperatureLabels()[i]);
    }
  }

  /** One output row: six plain fields, none derived or defaulted. */
  datatype AnalysisResult = AnalysisResult(
    subsection: string,
    scenario: string,
    weather: string,
    downwindDistance: real,
    interpolationMethod: string,
    temperatureOfInterest: real)
}
