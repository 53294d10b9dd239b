/** The persistence collaborator, reduced to the record of which calls the
    interpreter made, in order. The file I/O behind them is not modelled. */
module Persistence {

  datatype StorageCall =
    | Saved(record: string)                 // saveRecord(record)
    | Updated(record: string, index: int)   // updateRecord(record, index)
    | Deleted(index: int)                   // deleteRecord(index)

  class Storage {
    ghost var calls: seq<StorageCall>

    method SaveRecord(record: string)
      modifies this
      ensures calls == old(calls) + [Saved(record)]
    {
      calls := calls + [Saved(record)];
    }

    method UpdateRecord(record: string, index: int)
      modifies this
      ensures calls == old(calls) + [Updated(record, index)]
    {
      calls := calls + [Updated(record, index)];
    }

    method DeleteRecord(index: int)
      modifies this
      ensures calls == old(calls) + [Deleted(index)]
    {
      calls := calls + [Deleted(index)];
    }
  }
}
