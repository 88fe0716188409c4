// Lists of elements as sets.
module Lists {
  ghost predicate NoRepeats(list: seq<nat>) {
    forall i, j :: 0 <= i < j < |list| ==> list[i] != list[j]
  }

  ghost function ToSet(list: seq<nat>): set<nat> {
    set x | x in list
  }
}
