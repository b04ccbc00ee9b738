/** The rowset writer the memtable drains into, seen only through the calls it
    receives. Whether a call fails is a parameter of the writer: the status of its
    n-th add_row call, and the status of its seal. */
module Writer {
  import opened Rows

  /** The engine's status code: success, or an error with its code. */
  datatype Status = Success | Failure(code: int)

  /** One call made to the writer. */
  datatype WriterCall = AddRowCall(row: Row) | SealCall

  class RowsetWriter {
    /** Status of the add_row call that comes after `n` earlier ones. */
    const addRowStatus: nat -> Status
    /** Status of the writer's flush (seal). */
    const sealStatus: Status
    /** Every call received, in order. */
    var log: seq<WriterCall>
    /** Number of add_row calls received. */
    var adds: nat

    constructor (addRowStatus: nat -> Status, sealStatus: Status)
      ensures this.addRowStatus == addRowStatus && this.sealStatus == sealStatus
      ensures log == [] && adds == 0
    {
      this.addRowStatus := addRowStatus;
      this.sealStatus := sealStatus;
      log := [];
      adds := 0;
    }

    method AddRow(row: Row) returns (st: Status)
      modifies this
      ensures log == old(log) + [AddRowCall(row)] && adds == old(adds) + 1
      ensures st == addRowStatus(old(adds))
    {
      st := addRowStatus(adds);
      log := log + [AddRowCall(row)];
      adds := adds + 1;
    }

    method Flush() returns (st: Status)
      modifies this
      ensures log == old(log) + [SealCall] && adds == old(adds)
      ensures st == sealStatus
    {
      st := sealStatus;
      log := log + [SealCall];
    }
  }
}
