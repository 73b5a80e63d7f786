// The high-score list kept by saveHighScore and read by showHighestScore.
// Browser storage and JSON are not modelled: what the key 'highestScore'
// holds is an abstract StoredValue, and what JSON.parse makes of it is
// decided by its constructor.

module HighScores {

  /** What reading the key 'highestScore' can yield. */
  datatype StoredValue =
    | Missing                   // nothing stored: JSON.parse(null) is null
    | Malformed                 // text that JSON.parse rejects (the catch branch)
    | NotAnArray                // valid JSON that is not an array
    | ScoreList(scores: seq<int>)

  datatype Option<T> = None | Some(value: T)

  /** The list saveHighScore starts from: the stored array, or empty for
      anything else. */
  function LoadScores(v: StoredValue): (list: seq<int>)
    ensures v.ScoreList? ==> list == v.scores
    ensures !v.ScoreList? ==> list == []
  {
    match v
    case ScoreList(scores) => scores
    case _ => []
  }

  /** saveHighScore: appends the current score to the loaded list and stores
      the result as an array. */
  function SaveHighScore(v: StoredValue, score: int): (w: StoredValue)
    ensures w.ScoreList?
    ensures |w.scores| == |LoadScores(v)| + 1
    ensures w.scores[..|LoadScores(v)|] == LoadScores(v)
    ensures w.scores[|LoadScores(v)|] == score
  {
    ScoreList(LoadScores(v) + [score])
  }

  /** Math.max over a non-empty list: an element of the list that no element
      exceeds. */
  function Max(list: seq<int>): (m: int)
    requires list != []
    ensures m in list
    ensures forall k :: 0 <= k < |list| ==> list[k] <= m
  {
    if |list| == 1 then list[0]
    else
      var rest := Max(list[1..]);
      if list[0] < rest then rest else list[0]
  }

  /** showHighestScore: the value it displays, or None when it displays
      nothing (no array stored, or an empty one). */
  function HighestScore(v: StoredValue): (h: Option<int>)
    ensures h.Some? <==> v.ScoreList? && v.scores != []
    ensures h.Some? ==> h.value in v.scores
    ensures h.Some? ==> forall k :: 0 <= k < |v.scores| ==> v.scores[k] <= h.value
  {
    match v
    case ScoreList(scores) => if scores == [] then None else Some(Max(scores))
    case _ => None
  }

  /** After a save, the highest score shown is the larger of the score just
      saved and the highest score shown before (if any). */
  lemma HighestAfterSave(v: StoredValue, score: int)
    ensures HighestScore(SaveHighScore(v, score)) ==
      match HighestScore(v)
      case None => Some(score)
      case Some(h) => Some(if h < score then score else h)
  {
  }
}
