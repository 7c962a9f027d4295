/** The password-strength bar: colour and fill from the strength estimator's score. */
module StrengthMeter {

  const Red: string := "bg-red-500"
  const Orange: string := "bg-orange-500"
  const Yellow: string := "bg-yellow-500"
  const Green: string := "bg-green-500"
  const Grey: string := "bg-grey-500"

  /** `passwordStrength`: the bar colour for a score. */
  function StrengthColor(score: int): (c: string)
    ensures c in {Red, Orange, Yellow, Green, Grey}
    ensures c == Grey <==> score < 0 || score > 4
  {
    match score
    case 0 => Red
    case 1 => Red
    case 2 => Orange
    case 3 => Yellow
    case 4 => Green
    case _ => Grey
  }

  /** The bar's fill, `score * 25`. */
  function Progress(score: int): (p: int)
    ensures 0 <= score <= 4 ==> 0 <= p <= 100
    ensures p % 25 == 0 && p / 25 == score
  {
    score * 25
  }

  /** An independent reading of the colour from how full the bar is. */
  function ColorForFill(p: int): string {
    if p < 0 || p > 100 then Grey
    else if p < 50 then Red
    else if p < 75 then Orange
    else if p < 100 then Yellow
    else Green
  }

  /** The colour agrees with the fill for every integer score. */
  lemma ColorMatchesFill(score: int)
    ensures StrengthColor(score) == ColorForFill(Progress(score))
  {
  }

  /** A higher score always fills more of the bar. */
  lemma ProgressStrictlyIncreasing(a: int, b: int)
    requires a < b
    ensures Progress(a) < Progress(b)
  {
  }

  /** The estimator's scores 0..4 never produce the grey fallback. */
  lemma EstimatorScoresAreColoured(score: int)
    requires 0 <= score <= 4
    ensures StrengthColor(score) != Grey
    ensures Progress(score) == 100 <==> StrengthColor(score) == Green
  {
  }
}
