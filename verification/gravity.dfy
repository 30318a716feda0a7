/** The GRAVITIES table: ImageMagick gravity names by compass code, and the
    lookup alter_image interpolates into its crop fragment. */
module Gravity {

  /** GRAVITIES: compass code to ImageMagick gravity name. */
  const Gravities: map<string, string> := map[
    "C" := "Center",
    "E" := "East",
    "NE" := "NorthEast",
    "N" := "North",
    "NW" := "NorthWest",
    "SE" := "SouthEast",
    "S" := "South",
    "SW" := "SouthWest",
    "W" := "West"
  ]

  /** `"#{GRAVITIES[code]}"`: the gravity name, or the empty string for a code
      the table does not hold. */
  function GravityName(code: string): (name: string)
    ensures name == "" <==> code !in Gravities
  {
    if code in Gravities then Gravities[code] else ""
  }

  /** The codes GRAVITIES holds. */
  lemma GravityCodes()
    ensures Gravities.Keys == {"C", "E", "NE", "N", "NW", "SE", "S", "SW", "W"}
  {
  }

  /** The compass code of each gravity name. */
  lemma GravityEntries()
    ensures Gravities["C"] == "Center" && Gravities["E"] == "East" && Gravities["NE"] == "NorthEast"
    ensures Gravities["N"] == "North" && Gravities["NW"] == "NorthWest" && Gravities["SE"] == "SouthEast"
    ensures Gravities["S"] == "South" && Gravities["SW"] == "SouthWest" && Gravities["W"] == "West"
  {
  }

  /** The code a gravity name is looked up by; the empty string for any
      other name. */
  function CodeOf(name: string): string
  {
    if name == "Center" then "C"
    else if name == "East" then "E"
    else if name == "NorthEast" then "NE"
    else if name == "North" then "N"
    else if name == "NorthWest" then "NW"
    else if name == "SouthEast" then "SE"
    else if name == "South" then "S"
    else if name == "SouthWest" then "SW"
    else if name == "West" then "W"
    else ""
  }

  /** Reading the name back gives the code it was looked up by. */
  lemma CodeOfInvertsGravities()
    ensures forall code :: code in Gravities ==> CodeOf(Gravities[code]) == code
  {
  }

  /** No two codes share a name. */
  lemma GravityNamesOneToOne()
    ensures forall a, b :: a in Gravities && b in Gravities && Gravities[a] == Gravities[b] ==> a == b
  {
    CodeOfInvertsGravities();
  }
}
