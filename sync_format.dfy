/** The display formatters the `repo status` and `repo info` commands use for
    a repository's last synchronisation: its time and its state. */
module SyncFormat {
  import opened Wrappers

  /** The eight synchronisation states the server reports, with the label
      shown for each (untranslated). Both spellings of "cancelled" occur. */
  const SyncStates: map<string, string> := map[
    "waiting"    := "Waiting",
    "running"    := "Running",
    "error"      := "Error",
    "finished"   := "Finished",
    "cancelled"  := "Canceled",
    "canceled"   := "Canceled",
    "timed_out"  := "Timed out",
    "not_synced" := "Not synced"
  ]

  /** A sync time that was never recorded shows as "never"; any other is
      rendered by the date formatter, which is passed in because it is not
      part of this model. */
  function FormatSyncTime(syncTime: Option<string>, formatDate: string -> string): (r: string)
    ensures syncTime == None ==> r == "never"
    ensures syncTime.Some? ==> r == formatDate(syncTime.value)
  {
    if syncTime.None? then "never" else formatDate(syncTime.value)
  }

  /** The table lookup `SYNC_STATES[state]`: exactly the eight known states
      have a label, and `None` stands for the KeyError raised on any other.
      Both spellings of a cancelled sync are shown as "Canceled"; every
      other known state is shown capitalised, with '_' as a space. */
  function FormatSyncState(state: string): (r: Option<string>)
    ensures r.Some? <==>
      state in ["waiting", "running", "error", "finished", "cancelled",
                "canceled", "timed_out", "not_synced"]
    ensures state == "cancelled" || state == "canceled" ==> r == Some("Canceled")
    ensures state == "waiting" ==> r == Some("Waiting")
    ensures state == "running" ==> r == Some("Running")
    ensures state == "error" ==> r == Some("Error")
    ensures state == "finished" ==> r == Some("Finished")
    ensures state == "timed_out" ==> r == Some("Timed out")
    ensures state == "not_synced" ==> r == Some("Not synced")
  {
    if state in SyncStates then Some(SyncStates[state]) else None
  }

  /** Both spellings of a cancelled sync are shown as "Canceled", and they are
      the only two states that share a label. */
  lemma CancelledSpellings(a: string, b: string)
    requires FormatSyncState(a).Some? && FormatSyncState(a) == FormatSyncState(b)
    ensures a == b || {a, b} == {"cancelled", "canceled"}
    ensures FormatSyncState("cancelled") == FormatSyncState("canceled") == Some("Canceled")
  {
  }
}
