/**
 * What the player sees of one square, in the integer encoding the game uses:
 * negative values are the covered states, 0..8 an uncovered square's count of
 * adjacent mines, and 9..11 the states shown when a game ends.
 */
module Squares {

  /** Covered states. */
  const Covered: int := -1
  const MineGuess: int := -2
  const Question: int := -3

  /** End-of-game states. */
  const Mine: int := 9
  const IncorrectGuess: int := 10
  const ExplodedMine: int := 11

  /** The values a square's status takes. */
  predicate IsStatus(v: int) {
    Question <= v <= ExplodedMine
  }

  /** A square is uncovered when it is in none of the three covered states. */
  predicate IsUncoveredStatus(v: int) {
    v != Covered && v != MineGuess && v != Question
  }

  /** The covered states are exactly the negative ones. */
  lemma UncoveredIsNonNegative(v: int)
    requires IsStatus(v)
    ensures IsUncoveredStatus(v) <==> v >= 0
  {
  }

  /** The guess cycle Covered -> MineGuess -> Question -> Covered; uncovered squares stay as they are. */
  function NextGuess(v: int): (w: int)
    ensures IsStatus(v) ==> IsStatus(w)
    ensures IsUncoveredStatus(v) <==> IsUncoveredStatus(w)
  {
    if v == Covered then MineGuess
    else if v == MineGuess then Question
    else if v == Question then Covered
    else v
  }

  /** Three steps of the cycle return every square to where it started. */
  lemma NextGuessThrice(v: int)
    ensures NextGuess(NextGuess(NextGuess(v))) == v
    ensures IsUncoveredStatus(v) ==> NextGuess(v) == v
  {
  }

  /** Loss reveal: unguessed mines are shown, wrong guesses are marked; every other square keeps its status. */
  function LossReveal(v: int, mined: bool): (w: int)
    ensures IsStatus(v) ==> IsStatus(w)
  {
    if (v == Covered || v == Question) && mined then Mine
    else if v == MineGuess && !mined then IncorrectGuess
    else v
  }

  /** Win reveal: every mine is shown as guessed; squares without a mine keep their status. */
  function WinReveal(v: int, mined: bool): (w: int)
    ensures IsStatus(v) ==> IsStatus(w)
  {
    if mined then MineGuess else v
  }

  lemma RevealsSettle(v: int, mined: bool)
    ensures LossReveal(LossReveal(v, mined), mined) == LossReveal(v, mined)
    ensures WinReveal(WinReveal(v, mined), mined) == WinReveal(v, mined)
    ensures LossReveal(v, mined) != v ==> !IsUncoveredStatus(v) && IsUncoveredStatus(LossReveal(v, mined))
  {
  }
}
