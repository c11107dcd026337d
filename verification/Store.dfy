/** The version registry in memory and on disk (store/store.go). */
module Store {
  import opened Text
  import opened Protocol

  class VersionStore {
    var data: Registry
    var file: Registry          // store.json; empty when it was never written
    var tmp: Option<Registry>   // store.json.tmp

    /** Opens the store at its file. */
    constructor (file: Registry)
      ensures data == file && this.file == file
    {
      this.data, this.file, this.tmp := file, file, None;
    }

    method GetLastKnown(pkg: string) returns (known: bool, e: Entry)
      ensures known <==> pkg in data
      ensures known ==> e == data[pkg]
    {
      known := pkg in data;
      e := if known then data[pkg] else Entry(0, "");
    }

    /** The memory half of `SetLastKnown`; nothing ever takes it back. */
    method Remember(pkg: string, e: Entry)
      modifies this`data
      ensures data == old(data)[pkg := e]
    {
      data := data[pkg := e];
    }

    /** First half of `flush`: the whole registry goes to the temporary file. */
    method WriteTmp(ok: bool)
      modifies this`tmp
      ensures ok ==> tmp == Some(data)
    {
      tmp := if ok then Some(data) else None;
    }

    /** Second half of `flush`: the rename, or its clean-up. */
    method CommitTmp(ok: bool)
      requires tmp.Some?
      modifies this`tmp, this`file
      ensures file == if ok then old(tmp).value else old(file)
    {
      if ok {
        file := tmp.value;
      }
      tmp := None;
    }

    /** A new process opening the same file. */
    method Reopen()
      modifies this`data
      ensures data == file
    {
      data := file;
    }
  }
}
