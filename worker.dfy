/**
 * The worker side of the row protocol: announce itself with tag 0, then
 * repeatedly receive a row index, compute that row and send it back tagged
 * with its index, until an index at or past the image height arrives.
 */
module Worker {
  import opened Pixels
  import opened Escape
  import opened Messages

  /** The number of leading indices below `height`: the rows a worker computes from this stream. */
  function Served(indices: seq<nat>, height: nat): (k: nat)
    ensures k <= |indices|
    ensures forall j | 0 <= j < k :: indices[j] < height
    ensures k < |indices| ==> indices[k] >= height
  {
    if indices == [] || indices[0] >= height then 0
    else 1 + Served(indices[1..], height)
  }

  /** The `for x in 0..width` loop: fills the reused row buffer with row y's shades. */
  method ComputeRow(data: array<u8>, y: nat, iterations: nat, inside: Orbit)
    modifies data
    ensures data[..] == Row(inside, iterations, data.Length, y)
  {
    for x := 0 to data.Length
      invariant forall k | 0 <= k < x :: data[k] == Shade(EscapeTime(inside, k, y, iterations))
    {
      var i := EscapeCount(inside, x, y, iterations);
      data[x] := Shade(i);
    }
  }

  /**
   * A worker of rank `rank` that receives the indices `indices` from the
   * master, in order. It returns the messages it sends and whether it
   * exited; when it has not exited it is waiting for the next index.
   */
  method RunWorker(rank: nat, width: nat, height: nat, iterations: nat, inside: Orbit, indices: seq<nat>)
    returns (sent: seq<Message>, exited: bool)
    ensures |sent| == Served(indices, height) + 1
    ensures sent[0] == Message(rank, 0, Zeros(width))
    ensures forall j | 0 <= j < Served(indices, height) ::
      sent[j + 1] == Message(rank, indices[j], Row(inside, iterations, width, indices[j]))
    ensures exited <==> Served(indices, height) < |indices|
  {
    var data := new u8[width](_ => 0);
    assert data[..] == Zeros(width);
    sent := [Message(rank, 0, data[..])];
    var next := 0;
    while next < |indices| && indices[next] < height
      invariant next <= |indices|
      invariant forall j | 0 <= j < next :: indices[j] < height
      invariant data.Length == width
      invariant |sent| == next + 1 && sent[0] == Message(rank, 0, Zeros(width))
      invariant forall j | 0 <= j < next ::
        sent[j + 1] == Message(rank, indices[j], Row(inside, iterations, width, indices[j]))
    {
      var y := indices[next];
      ComputeRow(data, y, iterations, inside);
      sent := sent + [Message(rank, y, data[..])];
      next := next + 1;
    }
    exited := next < |indices|;
  }
}
