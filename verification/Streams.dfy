/**
 * The streams and sockets around the engines. Their bodies are nondeterministic: only what
 * the contracts promise is known to a caller, so every pattern of short transfers, blocks and
 * errors is covered.
 */
module Streams {
  datatype StreamResult = Success | Block | Eos | Error

  /** Something bytes are written to; `taken` is all it ever accepted, and it counts its other answers. */
  class Sink {
    ghost var taken: string
    ghost var blocks: nat
    ghost var failures: nat
    /** The error code of the last failure. */
    ghost var lastError: int
    /** What it was last asked to take. */
    ghost var offered: string

    constructor ()
      ensures taken == ""
    {
      taken, blocks, failures, lastError, offered := "", 0, 0, 0, "";
    }

    /** Success moves at least one byte; any other outcome moves none. */
    method Write(data: string) returns (result: StreamResult, written: nat, error: int)
      requires data != ""
      modifies this
      ensures offered == data
      ensures result.Success? ==> 1 <= written <= |data| && taken == old(taken) + data[..written]
      ensures !result.Success? ==> taken == old(taken)
      ensures blocks == old(blocks) + (if result.Block? then 1 else 0)
      ensures failures == old(failures) + (if result.Eos? || result.Error? then 1 else 0)
      ensures if result.Eos? || result.Error? then lastError == error else lastError == old(lastError)
    {
      offered := data;
      written, error := *, *;
      if 1 <= written <= |data| {
        taken := taken + data[..written];
        return Success, written, error;
      }
      result := *;
      result := if result.Success? then Block else result;
      blocks := blocks + if result.Block? then 1 else 0;
      if result.Eos? || result.Error? {
        failures, lastError := failures + 1, error;
      }
    }
  }

  /** Something bytes are read from; `delivered` lists what each successful read gave. */
  class Source {
    ghost var delivered: seq<string>
    ghost var blocks: nat
    ghost var failures: nat
    /** The error code of the last failure. */
    ghost var lastError: int
    /** How much it was last asked for. */
    ghost var room: nat
    var ended: bool

    constructor ()
      ensures delivered == [] && !ended
    {
      delivered, blocks, failures, lastError, room, ended := [], 0, 0, 0, 0, false;
    }

    /** Success gives at least one byte and at most `room`; once the end is reported it stays the end. */
    method Read(room: nat) returns (result: StreamResult, bytes: string, error: int)
      requires room > 0
      modifies this
      ensures this.room == room
      ensures result.Success? ==> 1 <= |bytes| <= room && delivered == old(delivered) + [bytes] && !old(ended) && !ended
      ensures !result.Success? ==> delivered == old(delivered)
      ensures ended == (old(ended) || result.Eos?)
      ensures old(ended) ==> result.Eos?
      ensures blocks == old(blocks) + (if result.Block? then 1 else 0)
      ensures failures == old(failures) + (if result.Error? then 1 else 0)
      ensures if result.Error? then lastError == error else lastError == old(lastError)
    {
      this.room, error := room, *;
      if ended {
        return Eos, "", error;
      }
      bytes := *;
      if 1 <= |bytes| <= room {
        delivered := delivered + [bytes];
        return Success, bytes, error;
      }
      result := *;
      result := if result.Success? then Block else result;
      ended := result.Eos?;
      blocks := blocks + if result.Block? then 1 else 0;
      if result.Error? {
        failures, lastError := failures + 1, error;
      }
    }
  }
}
