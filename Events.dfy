/** The notification channel between the listener and the frontend stream:
    the shared `file_update_queue`, here a sequence of tagged notifications
    rather than JSON strings. */
module Events {

  /** `{"action": "delete", ...}` and `{"action": "update_description", ...}`. */
  datatype Notification =
    | Delete(fileId: string)
    | UpdateDescription(fileId: string, description: string)

  /** An unbounded FIFO queue; only the producer side is modelled. */
  class UpdateQueue {
    var items: seq<Notification>

    constructor ()
      ensures items == []
    {
      items := [];
    }

    /** `await file_update_queue.put(...)`: appends at the tail. */
    method Put(n: Notification)
      modifies this
      ensures items == old(items) + [n]
    {
      items := items + [n];
    }
  }
}
