/** The records the tool passes around: `Offset`, `Display` and helpers over a
    display list (`DisplayList.displays`). */
module Displays {
  import opened Wrappers

  /** A signed displacement on one axis: direction "+" or "-" and a digit string. */
  datatype Offset = Offset(direction: string, offset: string)

  /** One output. `resolution` is "WxH"; `edid` is "" until an EDID block is attached. */
  datatype Display = Display(
    name: string,
    resolution: Option<string>,
    xOffset: Option<Offset>,
    yOffset: Option<Offset>,
    edid: string)

  /** The constructor's defaulting of a missing EDID to the empty string. */
  function NewDisplay(name: string, resolution: Option<string>, xOffset: Option<Offset>,
                      yOffset: Option<Offset>, edid: Option<string>): (d: Display)
    ensures d.name == name && d.resolution == resolution
    ensures d.xOffset == xOffset && d.yOffset == yOffset
    ensures edid.None? ==> d.edid == ""
    ensures edid.Some? ==> d.edid == edid.value
  {
    Display(name, resolution, xOffset, yOffset, edid.GetOr(""))
  }

  /** Resolution and both offsets are reported together or not at all. */
  predicate GeometryConsistent(d: Display) {
    d.resolution.Some? == d.xOffset.Some? && d.xOffset.Some? == d.yOffset.Some?
  }

  /** `get_edids`: the EDID of each display, in list order. */
  function Edids(displays: seq<Display>): (r: seq<string>)
    ensures |r| == |displays|
    ensures forall i :: 0 <= i < |displays| ==> r[i] == displays[i].edid
  {
    seq(|displays|, i requires 0 <= i < |displays| => displays[i].edid)
  }

  function Names(displays: seq<Display>): (r: seq<string>)
    ensures |r| == |displays|
    ensures forall i :: 0 <= i < |displays| ==> r[i] == displays[i].name
  {
    seq(|displays|, i requires 0 <= i < |displays| => displays[i].name)
  }

  /** A display with its EDID cleared; used to compare records up to EDID. */
  function Blank(d: Display): Display {
    d.(edid := "")
  }

  function BlankAll(displays: seq<Display>): (r: seq<Display>)
    ensures |r| == |displays|
    ensures forall i :: 0 <= i < |displays| ==> r[i] == Blank(displays[i])
  {
    seq(|displays|, i requires 0 <= i < |displays| => Blank(displays[i]))
  }
}
