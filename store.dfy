/**
 * `loadCommands` and `saveCommands`: the only code that touches
 * `commands.json`. The JSON encoding is not modelled; the file is seen as
 * the table it holds, or as absent or unreadable.
 */
module Store {
  import opened Commands

  /** What `commands.json` holds, as far as `loadCommands` can tell. */
  datatype Disk = Absent | Unreadable | Written(table: Table)

  class CommandStore {
    var file: Disk

    /** A JSON object never has two equal keys. */
    ghost predicate Valid()
      reads this
    {
      file.Written? ==> UniqueKeys(file.table)
    }

    constructor (file: Disk)
      requires file.Written? ==> UniqueKeys(file.table)
      ensures Valid() && this.file == file
    {
      this.file := file;
    }

    /** `loadCommands`: the stored table, or the empty table when the file is absent or unreadable. */
    method Load() returns (t: Table)
      requires Valid()
      ensures UniqueKeys(t)
      ensures file.Written? ==> t == file.table
      ensures !file.Written? ==> t == []
    {
      if file.Written? {
        t := file.table;
      } else {
        t := [];
      }
    }

    /**
     * `saveCommands`: writes the whole table and reports whether the write
     * succeeded; whether it does is decided by the environment (`succeeds`).
     * A failed write leaves the file as it was.
     */
    method Save(t: Table, succeeds: bool) returns (ok: bool)
      requires Valid() && UniqueKeys(t)
      modifies this
      ensures Valid()
      ensures ok == succeeds
      ensures file == if succeeds then Written(t) else old(file)
    {
      if succeeds {
        file := Written(t);
      }
      ok := succeeds;
    }
  }

  /** A successful save followed by a load gives back the same table, entries and order included. */
  method SaveThenLoad(store: CommandStore, t: Table) returns (loaded: Table)
    requires store.Valid() && UniqueKeys(t)
    modifies store
    ensures store.Valid()
    ensures loaded == t
  {
    var ok := store.Save(t, true);
    loaded := store.Load();
  }
}
