/**
 Import behaviours. The behaviour travels as a string parameter; the three
 the import acts on are the platform's `append`, `replace` and `delete`
 constants, and the comparisons against them are plain string equality.
 */
module Behaviors {

  datatype Behavior = Append | Replace | Delete | Other(name: string)

  const AppendName: string := "append"
  const ReplaceName: string := "replace"
  const DeleteName: string := "delete"

  /** An `Other` never carries one of the three known names. */
  predicate WellFormed(b: Behavior)
  {
    b.Other? ==> b.name !in {AppendName, ReplaceName, DeleteName}
  }

  /** The parameter text of a behaviour. */
  function BehaviorName(b: Behavior): string
  {
    match b
    case Append => AppendName
    case Replace => ReplaceName
    case Delete => DeleteName
    case Other(name) => name
  }

  /** Classifies a behaviour parameter; the parameter text survives unchanged. */
  function ParseBehavior(s: string): (b: Behavior)
    ensures WellFormed(b)
    ensures BehaviorName(b) == s
    ensures b == Delete <==> s == DeleteName
    ensures b == Append <==> s == AppendName
    ensures b == Replace <==> s == ReplaceName
  {
    if s == AppendName then Append
    else if s == ReplaceName then Replace
    else if s == DeleteName then Delete
    else Other(s)
  }

  /** Classifying a behaviour's name gives the behaviour back. */
  lemma ParseOfName(b: Behavior)
    requires WellFormed(b)
    ensures ParseBehavior(BehaviorName(b)) == b
  {
  }
}
