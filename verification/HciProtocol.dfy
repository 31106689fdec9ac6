/** WriteSafely: writing all of a buffer to the UART through short writes and retries. */
module HciProtocol {
  import opened Bits

  /** What one write() returns; a write never takes more than it was offered. */
  datatype WriteResult = Wrote(n: nat) | Again | Error

  function Min(a: nat, b: nat): nat {
    if a < b then a else b
  }

  /** Results after which the loop goes on. */
  predicate Progressing(r: WriteResult) {
    r == Again || (r.Wrote? && r.n > 0)
  }

  /** The bytes the descriptor would take before it fails. */
  function Accepted(results: seq<WriteResult>): nat {
    if results == [] then 0
    else match results[0]
      case Again => Accepted(results[1..])
      case Error => 0
      case Wrote(n) => if n == 0 then 0 else n + Accepted(results[1..])
  }

  /** Every byte the descriptor takes is the next byte of the buffer, and none is offered twice or
      skipped: what is on the wire is a prefix of the buffer, of the length returned. `results` are
      the write() results to come; `waiting` says that the call is still retrying when they end. */
  method WriteSafely(data: seq<byte>, results: seq<WriteResult>)
    returns (transmitted: nat, wire: seq<byte>, waiting: bool)
    ensures transmitted == Min(|data|, Accepted(results)) && wire == data[..transmitted]
    ensures waiting ==> transmitted < |data| && forall r :: r in results ==> Progressing(r)
  {
    transmitted, wire, waiting := 0, [], false;
    var length: nat := |data|;
    var calls: nat := 0;
    while length > 0
      invariant transmitted + length == |data| && calls <= |results|
      invariant wire == data[..transmitted]
      invariant Min(|data|, Accepted(results)) == transmitted + Min(length, Accepted(results[calls..]))
      invariant forall i :: 0 <= i < calls ==> Progressing(results[i])
      decreases |results| - calls
    {
      if calls == |results| {
        waiting := true;
        break;
      }
      var result := results[calls];
      calls := calls + 1;
      assert results[calls - 1..][1..] == results[calls..];
      if result == Again {
        continue;
      }
      if result == Error || result.n == 0 {
        break;
      }
      var ret := Min(result.n, length);
      wire := wire + data[transmitted..transmitted + ret];
      transmitted := transmitted + ret;
      length := length - ret;
    }
  }
}
