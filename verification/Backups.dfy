/** The part of a base backup's metadata that retention looks at. */
module Backups {

  /** `startedAt` orders backups in time; `startWAL` is the first WAL file a restore needs, empty
      when the metadata does not record it. */
  datatype Backup = Backup(name: string, startedAt: int, startWAL: string)
}
