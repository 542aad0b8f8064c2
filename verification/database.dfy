/** The state script.js keeps in the realtime database: the `players` list
    (mirrored in memory through its value listener) and the `attendance`
    object keyed by date key. */
module Database {
  import opened Results

  /** The value stored under `attendance/<key>`. Either field may be missing
      from what the database returns, which the history listing and the merge
      both guard against. */
  datatype StoredRecord = StoredRecord(date: Option<string>, players: Option<seq<string>>)

  /** The whole store: roster names in push order and attendance by key. */
  datatype Store = Store(players: seq<string>, attendance: map<string, StoredRecord>)
}
