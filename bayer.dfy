/**
 * The Bayer-order table: the five accepted order names and the colour
 * conversion each selects. GREY selects no conversion, so the decoded
 * plane is passed on as it is.
 */
module Bayer {
  import opened Wrappers

  /** The colour-filter layouts the converter accepts, plus GREY for a plain single-channel plane. */
  datatype BayerOrder = RGGB | GRBG | BGGR | GBRG | GREY

  /**
   * The conversion handed to the demosaicing library. The constructors carry
   * the library's own names; NoConversion is the table's 0 entry.
   */
  datatype CvtCode = NoConversion | BayerBG2BGR | BayerGB2BGR | BayerRG2BGR | BayerGR2BGR

  /** The accepted names, in the order of the table. */
  const BayerOrderNames: seq<string> := ["RGGB", "GRBG", "BGGR", "GBRG", "GREY"]

  /** The command-line name of an order. */
  function Name(o: BayerOrder): (s: string)
    ensures s in BayerOrderNames && |s| == 4
  {
    match o
    case RGGB => "RGGB"
    case GRBG => "GRBG"
    case BGGR => "BGGR"
    case GBRG => "GBRG"
    case GREY => "GREY"
  }

  /**
   * Looks a name up in the table. Exactly the five table names are accepted,
   * each naming its own order; anything else has no entry.
   */
  function ParseBayerOrder(name: string): (r: Option<BayerOrder>)
    ensures r.Some? <==> name in BayerOrderNames
    ensures r.Some? ==> Name(r.value) == name
  {
    if name == "RGGB" then Some(RGGB)
    else if name == "GRBG" then Some(GRBG)
    else if name == "BGGR" then Some(BGGR)
    else if name == "GBRG" then Some(GBRG)
    else if name == "GREY" then Some(GREY)
    else None
  }

  /** The conversion an order selects; only GREY selects none. */
  function CvtCodeOf(o: BayerOrder): (c: CvtCode)
    ensures c == NoConversion <==> o == GREY
  {
    match o
    case RGGB => BayerBG2BGR
    case GRBG => BayerGB2BGR
    case BGGR => BayerRG2BGR
    case GBRG => BayerGR2BGR
    case GREY => NoConversion
  }

  /** Every order is found again under its own name. */
  lemma ParseName(o: BayerOrder)
    ensures Name(o) in BayerOrderNames
    ensures ParseBayerOrder(Name(o)) == Some(o)
  {
  }

  /** Distinct orders select distinct conversions, so the table loses no information. */
  lemma CvtCodeInjective(a: BayerOrder, b: BayerOrder)
    requires CvtCodeOf(a) == CvtCodeOf(b)
    ensures a == b
  {
  }
}
