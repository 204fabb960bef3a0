/** Interaction records as the STRING network endpoint returns them, and the
    way pronet reads their fields. */
module Records {

  datatype Option<+T> = None | Some(value: T)

  /** A confidence score: an integer from 0 to 1000. */
  type Score = s: int | 0 <= s <= 1000

  /** One interaction record. A name is None when its key is absent or its
      value is JSON `null` (`dict.get` returns None for both); the score is
      None when its key is absent. */
  datatype Record = Record(nameA: Option<string>, nameB: Option<string>, score: Option<Score>)

  /** Python truthiness of a name read with `get`: an absent or `null` name
      and the empty string are false. */
  predicate Truthy(name: Option<string>) {
    name.Some? && name.value != ""
  }

  /** A record contributes to the graph only when both names are truthy. */
  predicate Qualifies(r: Record) {
    Truthy(r.nameA) && Truthy(r.nameB)
  }

  /** `r.get('score', 0)`: the score, or 0 when the record has none. */
  function ScoreOrZero(r: Record): Score {
    match r.score
    case Some(s) => s
    case None => 0
  }
}
