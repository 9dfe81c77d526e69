/** What every cache shard takes and reports. */
module CacheTypes {

  /** A key as the caller gives it. */
  type Key = string

  /** The priority that an entry is inserted with. */
  datatype Priority = High | Low | Bottom

  /** What inserting can report. */
  datatype Status = Ok | OkOverwritten | MemoryLimit
}
