/** The records shared by the whole app: a rubric criterion, the three
    score levels of the slider, and the `scores[id] || 0` lookup used
    wherever a score is read. */
module Types {

  datatype Option<T> = None | Some(value: T)

  /** One scoring criterion of the rubric. `maxPoints` is whatever the
      parser produced: never 0, but possibly negative. */
  datatype RubricItem = RubricItem(
    id: string,
    category: string,
    criteria: string,
    description: string,
    levelLow: string,
    levelMid: string,
    levelHigh: string,
    maxPoints: int)

  datatype ScoreLevel = Low | Mid | High

  /** `scores[id] || 0`: the stored score, or 0 for an id without one. */
  function ScoreOf(scores: map<string, int>, id: string): (r: int)
    ensures id in scores ==> r == scores[id]
    ensures id !in scores ==> r == 0
  {
    if id in scores then scores[id] else 0
  }

  /** The set of ids of a list of items. */
  function Ids(items: seq<RubricItem>): set<string> {
    set k | 0 <= k < |items| :: items[k].id
  }

  /** No two items share an id. */
  predicate DistinctIds(items: seq<RubricItem>) {
    forall j, k :: 0 <= j < k < |items| ==> items[j].id != items[k].id
  }
}
