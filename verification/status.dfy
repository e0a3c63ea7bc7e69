/**
  The two status values both resource kinds use, and how an update event's old
  and new record are classified by the controllers' update handlers.
 */
module Status {

  const Available: string := "Available"
  const UnAvailable: string := "UnAvailable"

  /** What an update handler makes of an (old, new) pair; every outcome is only logged. */
  datatype Transition =
    | Echo            // same version: a resync echo, the handler returns at once
    | CrossNamespace  // old and new live in different namespaces
    | Recovered       // UnAvailable -> Available
    | Lost            // Available -> UnAvailable
    | Steady          // any other status pair

  function StatusChange(oldStatus: string, newStatus: string): (t: Transition)
    ensures t == Recovered <==> oldStatus == UnAvailable && newStatus == Available
    ensures t == Lost <==> oldStatus == Available && newStatus == UnAvailable
    ensures t == Steady <==> !(oldStatus == UnAvailable && newStatus == Available) && !(oldStatus == Available && newStatus == UnAvailable)
    ensures oldStatus == newStatus ==> t == Steady
  {
    if oldStatus == UnAvailable && newStatus == Available then Recovered
    else if oldStatus == Available && newStatus == UnAvailable then Lost
    else Steady
  }
}
