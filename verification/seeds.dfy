/** The occupant of a board cell, shared by both games. */
module Seeds {

  /** A cell holds a cross, a nought, or nothing. */
  datatype Seed = Cross | Nought | NoSeed

  /** The label each seed carries: the cross player is "Snowy", the nought player "Stormy". */
  function Icon(s: Seed): (icon: string)
    ensures |icon| > 0
    ensures icon == " " <==> s == NoSeed
  {
    match s
    case Cross => "Snowy"
    case Nought => "Stormy"
    case NoSeed => " "
  }

  /** The three icons, and no two seeds share one. */
  lemma IconsDistinct(a: Seed, b: Seed)
    ensures Icon(Cross) == "Snowy" && Icon(Nought) == "Stormy" && Icon(NoSeed) == " "
    ensures Icon(a) == Icon(b) <==> a == b
  {
  }
}
