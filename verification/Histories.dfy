/** Finite histories: what happened so far, the latest thing last. */
module Histories {
  datatype History<+T> = Start | Then(before: History<T>, last: T)

  ghost function Length<T>(h: History<T>): nat {
    match h
    case Start => 0
    case Then(b, _) => Length(b) + 1
  }

  /** The history as a sequence, oldest first. */
  ghost function Items<T>(h: History<T>): (s: seq<T>)
    ensures |s| == Length(h)
  {
    match h
    case Start => []
    case Then(b, x) => Items(b) + [x]
  }
}
