/** What the directory watcher tells about a file. */
module WatchEvents {
  datatype Event = Added | Removed | Modified | RenamedOld | RenamedNew
}
