/**
 A store file replaced by temp file and rename: a flush either puts the whole value in place
 or leaves the old one, whether it raises or the process dies.
 */
module StoreFiles {
  import opened Wrappers

  datatype Fault = NoFault | TempWriteFails | RenameFails

  class StoreFile<T> {
    var content: Option<T>

    constructor ()
      ensures content.None?
    {
      content := None;
    }

    method Flush(value: T, fault: Fault) returns (ok: bool)
      modifies this
      ensures ok <==> fault.NoFault?
      ensures content == if ok then Some(value) else old(content)
    {
      if fault.TempWriteFails? {
        return false;
      }
      var temp := value;
      if fault.RenameFails? {
        return false;
      }
      content := Some(temp);
      return true;
    }
  }
}
