/** The two sides of the game and the way one passes from one to the other. */
module Colors {

  datatype GameColor = White | Black

  /** The opponent of `color`. */
  function SecondColor(color: GameColor): (r: GameColor)
    ensures r != color
  {
    match color
    case White => Black
    case Black => White
  }

  /** Taking the opponent twice gives back the colour one started from. */
  lemma SecondColorInvolution(color: GameColor)
    ensures SecondColor(SecondColor(color)) == color
  {
  }

  /** Two colours that are not each other's opponent are equal: there are only two. */
  lemma SecondColorIsTheOther(color: GameColor, other: GameColor)
    requires other != color
    ensures other == SecondColor(color)
  {
  }
}
