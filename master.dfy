/**
 * The master side of the row protocol (rank 0). It owns two counters and
 * the image: `linesOut`, the next row index to hand out, and `linesIn`,
 * the number of painted rows. For every message received from any worker
 * it paints the carried row unless the tag is 0, answers the sender with
 * `linesOut` and increments it, and stops once `linesIn >= height - 1`.
 *
 * The tag 0 is both a worker's first contact and the tag of a finished
 * row 0, so row 0 is never painted; the `height - 1` threshold accounts for
 * exactly that missing row.
 */
module Master {
  import opened Pixels
  import opened Messages
  import Colours

  /** Why the master process dies while handling a message. */
  datatype Fault =
    | Truncated        // the payload is longer than the receive buffer
    | RowOutsideImage  // `get_pixel_mut` is asked for a row at or past the image height

  /** What handling one message leads to: a reply (and whether the master then exits), or a fault. */
  datatype Outcome = Reply(dest: nat, value: nat, exit: bool) | Abort(fault: Fault)

  /**
   * The master's state: the counters, the receive buffer that every message
   * is received into, and the image as rows of pixels (`grid[y][x]`).
   */
  datatype MasterState = MasterState(linesOut: nat, linesIn: nat, buffer: seq<u8>, grid: seq<seq<Rgb>>)

  predicate WellShaped(width: nat, height: nat, s: MasterState)
  {
    && |s.buffer| == width
    && |s.grid| == height
    && forall y | 0 <= y < height :: |s.grid[y]| == width
  }

  function BlackRow(width: nat): seq<Rgb>
  {
    seq(width, _ => Black)
  }

  function BlankGrid(width: nat, height: nat): seq<seq<Rgb>>
  {
    seq(height, _ => BlackRow(width))
  }

  /** Counters at 0, a zeroed buffer and an all-black image. */
  function Initial(width: nat, height: nat): (s: MasterState)
    ensures WellShaped(width, height, s)
  {
    MasterState(0, 0, Zeros(width), BlankGrid(width, height))
  }

  /** One painted row: every shade of the buffer through the colour tables. */
  function ColourRow(buffer: seq<u8>): seq<Rgb>
  {
    seq(|buffer|, i requires 0 <= i < |buffer| => Colours.Colour(buffer[i]))
  }

  /**
   * `linesIn >= (height - 1) as i32`. For height 0 the subtraction gives
   * -1, what a release build's wrapped `usize::MAX as i32` is.
   */
  predicate Exits(linesIn: nat, height: nat)
  {
    linesIn as int >= height as int - 1
  }

  /** One turn of the master's loop for the message `m`. */
  function Handle(width: nat, height: nat, s: MasterState, m: Message): (r: (MasterState, Outcome))
    requires WellShaped(width, height, s)
    ensures WellShaped(width, height, r.0)
  {
    if |m.row| > width then (s, Abort(Truncated))
    else
      var buffer := m.row + s.buffer[|m.row|..];
      if m.tag == 0 then
        (s.(linesOut := s.linesOut + 1, buffer := buffer), Reply(m.source, s.linesOut, Exits(s.linesIn, height)))
      else if width > 0 && m.tag >= height then
        (s.(linesIn := s.linesIn + 1, buffer := buffer), Abort(RowOutsideImage))
      else
        var grid := if m.tag < height then s.grid[m.tag := ColourRow(buffer)] else s.grid;
        (MasterState(s.linesOut + 1, s.linesIn + 1, buffer, grid), Reply(m.source, s.linesOut, Exits(s.linesIn + 1, height)))
  }

  /** The master has left its loop: its last outcome is a fault or a reply after which it exits. */
  predicate Stopped(outs: seq<Outcome>)
  {
    outs != [] && (outs[|outs| - 1].Abort? || outs[|outs| - 1].exit)
  }

  predicate NoFault(outs: seq<Outcome>)
  {
    forall k | 0 <= k < |outs| :: outs[k].Reply?
  }

  /**
   * The master's loop fed the messages `msgs` in arrival order: the final
   * state and one outcome per message handled. Messages after the one the
   * master stops on are never received.
   */
  function Serve(width: nat, height: nat, s: MasterState, msgs: seq<Message>): (r: (MasterState, seq<Outcome>))
    requires WellShaped(width, height, s)
    ensures WellShaped(width, height, r.0)
    ensures |r.1| <= |msgs|
    decreases |msgs|
  {
    if msgs == [] then (s, [])
    else
      var r := Serve(width, height, s, msgs[..|msgs| - 1]);
      if Stopped(r.1) then r
      else
        var h := Handle(width, height, r.0, msgs[|msgs| - 1]);
        (h.0, r.1 + [h.1])
  }

  /** The tags of the messages that carry a painted row, in arrival order. */
  function PaintedTags(msgs: seq<Message>): seq<nat>
  {
    if msgs == [] then []
    else PaintedTags(msgs[..|msgs| - 1]) + (if msgs[|msgs| - 1].tag != 0 then [msgs[|msgs| - 1].tag] else [])
  }

  /** The row carried by the last message tagged `y`, if any; tag 0 never counts. */
  function LastRow(msgs: seq<Message>, y: nat): Option<seq<u8>>
  {
    if msgs == [] then None
    else if y != 0 && msgs[|msgs| - 1].tag == y then Some(msgs[|msgs| - 1].row)
    else LastRow(msgs[..|msgs| - 1], y)
  }

  /**
   * Replies over a run: the k-th message handled is answered to its own
   * sender with `linesOut + k`, so the replies count up by one from the
   * initial `linesOut` (0, 1, 2, ... from the initial state), are never
   * repeated and go on past the image height. Every message before the last
   * one handled is answered without exiting, and messages are left unread
   * only once the master has stopped.
   */
  lemma {:induction false} ServeReplies(width: nat, height: nat, s: MasterState, msgs: seq<Message>)
    requires WellShaped(width, height, s)
    ensures var outs := Serve(width, height, s, msgs).1;
      |outs| <= |msgs| && (|outs| < |msgs| ==> Stopped(outs))
    ensures var outs := Serve(width, height, s, msgs).1;
      forall k | 0 <= k < |outs| - 1 :: outs[k].Reply? && !outs[k].exit
    ensures var outs := Serve(width, height, s, msgs).1;
      forall k | 0 <= k < |outs| :: outs[k].Reply? ==> outs[k].dest == msgs[k].source && outs[k].value == s.linesOut + k
    ensures var r := Serve(width, height, s, msgs);
      NoFault(r.1) ==> r.0.linesOut == s.linesOut + |r.1|
    decreases |msgs|
  {
    if msgs != [] {
      var n := |msgs|;
      var p := msgs[..n - 1];
      ServeReplies(width, height, s, p);
      assert forall k | 0 <= k < n - 1 :: p[k] == msgs[k];
    }
  }

  /**
   * Counting painted rows over a run: while no fault occurs `linesIn` grows
   * by one for each message with a non-zero tag and by nothing for tag 0.
   */
  lemma {:induction false} ServeLinesIn(width: nat, height: nat, s: MasterState, msgs: seq<Message>)
    requires WellShaped(width, height, s)
    ensures var r := Serve(width, height, s, msgs);
      NoFault(r.1) ==> r.0.linesIn == s.linesIn + |PaintedTags(msgs[..|r.1|])|
    decreases |msgs|
  {
    if msgs != [] {
      var n := |msgs|;
      var p := msgs[..n - 1];
      ServeLinesIn(width, height, s, p);
      ServeRunning(width, height, s, p);
      var r := Serve(width, height, s, p);
      if !Stopped(r.1) {
        var m := msgs[n - 1];
        HandleCounts(width, height, r.0, m);
        var h := Handle(width, height, r.0, m);
        assert Serve(width, height, s, msgs) == (h.0, r.1 + [h.1]);
        assert |r.1| == n - 1;
        assert msgs[..n] == msgs && p[..n - 1] == p;
        assert PaintedTags(msgs) == PaintedTags(p) + (if m.tag != 0 then [m.tag] else []);
        if NoFault(r.1 + [h.1]) {
          assert h.1 == (r.1 + [h.1])[n - 1];
        }
      } else {
        assert Serve(width, height, s, msgs) == r;
        assert msgs[..|r.1|] == p[..|r.1|];
      }
    }
  }

  /** Reply k carries the exit flag exactly when `linesIn` counted over the first k + 1 messages reaches `height - 1`. */
  predicate ExitFlagsAgree(linesIn: nat, height: nat, msgs: seq<Message>, outs: seq<Outcome>)
    requires |outs| <= |msgs|
  {
    forall k | 0 <= k < |outs| :: outs[k].Reply? ==>
      (outs[k].exit <==> Exits(linesIn + |PaintedTags(msgs[..k + 1])|, height))
  }

  lemma ExitFlagsExtend(linesIn: nat, height: nat, p: seq<Message>, msgs: seq<Message>, outs: seq<Outcome>)
    requires |outs| <= |p| <= |msgs| && p == msgs[..|p|]
    requires ExitFlagsAgree(linesIn, height, p, outs)
    ensures ExitFlagsAgree(linesIn, height, msgs, outs)
  {
    forall j | 1 <= j <= |outs| ensures msgs[..j] == p[..j] {
    }
  }

  lemma ExitFlagsStep(width: nat, height: nat, linesIn: nat, p: seq<Message>, m: Message, t: MasterState, outs: seq<Outcome>)
    requires WellShaped(width, height, t)
    requires |outs| == |p| && ExitFlagsAgree(linesIn, height, p, outs)
    requires t.linesIn == linesIn + |PaintedTags(p)|
    ensures ExitFlagsAgree(linesIn, height, p + [m], outs + [Handle(width, height, t, m).1])
  {
    var msgs := p + [m];
    var o := Handle(width, height, t, m).1;
    HandleCounts(width, height, t, m);
    assert msgs[..|msgs| - 1] == p;
    assert PaintedTags(msgs) == PaintedTags(p) + (if m.tag != 0 then [m.tag] else []);
    forall j | 1 <= j <= |p| ensures msgs[..j] == p[..j] {
    }
    assert msgs[..|p| + 1] == msgs;
  }

  /**
   * The master exits on exactly the message after which the number of
   * painted rows reaches `height - 1`: each reply carries the exit flag
   * exactly when the count so far has reached it.
   */
  lemma {:induction false} ServeExitFlags(width: nat, height: nat, s: MasterState, msgs: seq<Message>)
    requires WellShaped(width, height, s)
    ensures ExitFlagsAgree(s.linesIn, height, msgs, Serve(width, height, s, msgs).1)
    decreases |msgs|
  {
    if msgs != [] {
      var n := |msgs|;
      var p := msgs[..n - 1];
      ServeExitFlags(width, height, s, p);
      ServeRunning(width, height, s, p);
      ServeLinesIn(width, height, s, p);
      var r := Serve(width, height, s, p);
      assert msgs == p + [msgs[n - 1]];
      if !Stopped(r.1) {
        assert p[..|r.1|] == p;
        ExitFlagsStep(width, height, s.linesIn, p, msgs[n - 1], r.0, r.1);
      } else {
        ExitFlagsExtend(s.linesIn, height, p, msgs, r.1);
      }
    }
  }

  /** A master that has not stopped has handled every message, each with a reply. */
  lemma ServeRunning(width: nat, height: nat, s: MasterState, msgs: seq<Message>)
    requires WellShaped(width, height, s)
    ensures var outs := Serve(width, height, s, msgs).1;
      !Stopped(outs) ==> |outs| == |msgs| && NoFault(outs)
  {
    ServeReplies(width, height, s, msgs);
  }

  /** How one handled message moves the counters. */
  lemma HandleCounts(width: nat, height: nat, t: MasterState, m: Message)
    requires WellShaped(width, height, t)
    ensures var h := Handle(width, height, t, m);
      h.1.Reply? ==> && h.0.linesIn == t.linesIn + (if m.tag != 0 then 1 else 0)
                     && (h.1.exit <==> Exits(h.0.linesIn, height))
  {
  }

  /**
   * A message that fits the buffer is answered to its sender with the
   * current `linesOut`, which then grows by exactly one, whether or not
   * that passes the height. A tag-0 message (a first contact, or a
   * finished row 0) leaves `linesIn` and the image as they were.
   */
  lemma HandleReplies(width: nat, height: nat, t: MasterState, m: Message)
    requires WellShaped(width, height, t) && |m.row| <= width
    requires m.tag == 0 || m.tag < height || width == 0
    ensures var h := Handle(width, height, t, m);
      && h.1 == Reply(m.source, t.linesOut, Exits(h.0.linesIn, height))
      && h.0.linesOut == t.linesOut + 1
    ensures var h := Handle(width, height, t, m);
      m.tag == 0 ==> h.0.linesIn == t.linesIn && h.0.grid == t.grid
  {
  }

  /** One handled full-width row repaints the row it is tagged with, if any, and nothing else. */
  lemma HandlePaints(width: nat, height: nat, t: MasterState, m: Message)
    requires WellShaped(width, height, t) && |m.row| == width
    ensures forall y | 0 <= y < height ::
              Handle(width, height, t, m).0.grid[y] == (if y != 0 && m.tag == y then ColourRow(m.row) else t.grid[y])
  {
    assert t.buffer[width..] == [];
    assert m.row + t.buffer[width..] == m.row;
  }

  /** Row y of `grid` shows the last row tagged y in `msgs`, or row y of `blank` if there is none. */
  predicate GridShows(height: nat, blank: seq<seq<Rgb>>, msgs: seq<Message>, grid: seq<seq<Rgb>>)
    requires |blank| == height && |grid| == height
  {
    forall y | 0 <= y < height :: grid[y] == match LastRow(msgs, y)
      case Some(row) => ColourRow(row)
      case None => blank[y]
  }

  lemma PaintsStep(width: nat, height: nat, blank: seq<seq<Rgb>>, p: seq<Message>, t: MasterState, m: Message)
    requires WellShaped(width, height, t) && |blank| == height && |m.row| == width
    requires GridShows(height, blank, p, t.grid)
    ensures GridShows(height, blank, p + [m], Handle(width, height, t, m).0.grid)
  {
    var msgs := p + [m];
    var grid := Handle(width, height, t, m).0.grid;
    HandlePaints(width, height, t, m);
    assert msgs[..|msgs| - 1] == p;
    forall y | 0 <= y < height
      ensures grid[y] == match LastRow(msgs, y)
        case Some(row) => ColourRow(row)
        case None => blank[y]
    {
      assert LastRow(msgs, y) == if y != 0 && m.tag == y then Some(m.row) else LastRow(p, y);
    }
  }

  /**
   * The image after a run in which every row has the buffer's length: row y
   * shows the colours of the last handled row tagged y, and rows never sent
   * with a non-zero tag (row 0 always among them) keep their initial pixels.
   */
  lemma {:induction false} ServePaints(width: nat, height: nat, s: MasterState, msgs: seq<Message>)
    requires WellShaped(width, height, s)
    requires forall k | 0 <= k < |msgs| :: |msgs[k].row| == width
    ensures GridShows(height, s.grid, msgs[..|Serve(width, height, s, msgs).1|], Serve(width, height, s, msgs).0.grid)
    decreases |msgs|
  {
    if msgs != [] {
      var n := |msgs|;
      var p := msgs[..n - 1];
      ServePaints(width, height, s, p);
      ServeRunning(width, height, s, p);
      var r := Serve(width, height, s, p);
      if !Stopped(r.1) {
        assert p[..|r.1|] == p;
        assert msgs == p + [msgs[n - 1]];
        PaintsStep(width, height, s.grid, p, r.0, msgs[n - 1]);
        assert msgs[..n] == msgs;
      } else {
        assert msgs[..|r.1|] == p[..|r.1|];
      }
    }
  }

  /** Once the master has stopped, later messages change nothing. */
  lemma {:induction false} ServeStaysStopped(width: nat, height: nat, s: MasterState, msgs: seq<Message>, k: nat)
    requires WellShaped(width, height, s)
    requires k <= |msgs| && Stopped(Serve(width, height, s, msgs[..k]).1)
    ensures Serve(width, height, s, msgs) == Serve(width, height, s, msgs[..k])
    decreases |msgs| - k
  {
    if k == |msgs| {
      assert msgs[..k] == msgs;
    } else {
      var p := msgs[..|msgs| - 1];
      assert p[..k] == msgs[..k];
      ServeStaysStopped(width, height, s, p, k);
    }
  }

  /**
   * The master's loop as the source runs it: counters and buffers updated
   * in place. `image[x, y]` is the pixel `get_pixel_mut(x, y)` reaches.
   */
  class Master {
    const width: nat
    const height: nat
    var linesOut: nat
    var linesIn: nat
    const data: array<u8>
    const image: array2<Rgb>

    /** The image as rows, `grid[y][x] == image[x, y]`. */
    ghost var grid: seq<seq<Rgb>>

    ghost predicate Valid()
      reads this, image
    {
      && data.Length == width
      && image.Length0 == width && image.Length1 == height
      && |grid| == height
      && (forall y | 0 <= y < height :: |grid[y]| == width)
      && forall x, y | 0 <= x < width && 0 <= y < height :: image[x, y] == grid[y][x]
    }

    ghost function State(): (s: MasterState)
      reads this, data, image
      requires Valid()
      ensures WellShaped(width, height, s)
    {
      MasterState(linesOut, linesIn, data[..], grid)
    }

    constructor (width: nat, height: nat)
      ensures Valid() && this.width == width && this.height == height
      ensures fresh(data) && fresh(image)
      ensures State() == Initial(width, height)
    {
      this.width := width;
      this.height := height;
      linesOut := 0;
      linesIn := 0;
      data := new u8[width](_ => 0);
      image := new Rgb[width, height]((_, _) => Black);
      grid := BlankGrid(width, height);
      new;
      assert data[..] == Zeros(width);
    }

    /** One turn of the loop: receive `m`, paint it unless its tag is 0, reply, test for exit. */
    method Receive(m: Message) returns (o: Outcome)
      requires Valid()
      modifies this, data, image
      ensures Valid()
      ensures (State(), o) == Handle(width, height, old(State()), m)
    {
      ghost var s := State();
      if |m.row| > width {
        return Abort(Truncated);
      }
      ghost var before := data[..];
      // receive_into: the message overwrites the front of the buffer
      forall i | 0 <= i < |m.row| {
        data[i] := m.row[i];
      }
      assert data[..] == m.row + before[|m.row|..];
      if m.tag != 0 {
        linesIn := linesIn + 1;
        var y := m.tag;
        var painted := PaintRow(y);
        if !painted {
          assert data[..] == m.row + s.buffer[|m.row|..];
          assert State() == s.(linesIn := s.linesIn + 1, buffer := data[..]);
          return Abort(RowOutsideImage);
        }
        if y < height {
          grid := grid[y := ColourRow(data[..])];
        }
      }
      o := Reply(m.source, linesOut, Exits(linesIn, height));
      linesOut := linesOut + 1;
      assert State().grid == if m.tag != 0 && m.tag < height then s.grid[m.tag := ColourRow(data[..])] else s.grid;
      assert State().linesIn == s.linesIn + (if m.tag != 0 then 1 else 0);
      assert State().buffer == m.row + s.buffer[|m.row|..];
      assert (State(), o) == Handle(width, height, s, m);
    }

    /**
     * The `for x in 0..width` loop: pixel (x, y) becomes the colour of shade
     * `data[x]`. It fails, before writing anything, when the image has
     * columns but no row y (`get_pixel_mut` panics).
     */
    method PaintRow(y: nat) returns (ok: bool)
      requires Valid()
      modifies image
      ensures ok <==> y < height || width == 0
      ensures forall i, j | 0 <= i < width && 0 <= j < height ::
        image[i, j] == if j == y then Colours.Colour(data[i]) else old(image[i, j])
    {
      for x := 0 to width
        invariant x > 0 ==> y < height
        invariant forall i, j | 0 <= i < width && 0 <= j < height ::
          image[i, j] == if j == y && i < x then Colours.Colour(data[i]) else old(image[i, j])
      {
        if y >= height {
          // get_pixel_mut panics on a row outside the image
          return false;
        }
        image[x, y] := Colours.Colour(data[x]);
      }
      return true;
    }

    /**
     * The loop over the messages in arrival order, until the master stops
     * or no message is left (in the source it would then block in receive).
     */
    method Run(msgs: seq<Message>) returns (outs: seq<Outcome>)
      requires Valid()
      modifies this, data, image
      ensures Valid()
      ensures (State(), outs) == Serve(width, height, old(State()), msgs)
    {
      ghost var s0 := State();
      outs := [];
      var k := 0;
      while k < |msgs| && !Stopped(outs)
        invariant k <= |msgs|
        invariant Valid()
        invariant (State(), outs) == Serve(width, height, s0, msgs[..k])
      {
        assert msgs[..k + 1][..k] == msgs[..k];
        var o := Receive(msgs[k]);
        outs := outs + [o];
        k := k + 1;
      }
      if k == |msgs| {
        assert msgs[..k] == msgs;
      } else {
        ServeStaysStopped(width, height, s0, msgs, k);
      }
    }
  }

  /**
   * `RunMaster`: a fresh master fed the messages `msgs`. The outcomes and the
   * image are those of the specification run from the initial state.
   */
  method RunMaster(width: nat, height: nat, msgs: seq<Message>) returns (outs: seq<Outcome>, image: array2<Rgb>)
    ensures fresh(image)
    ensures image.Length0 == width && image.Length1 == height
    ensures outs == Serve(width, height, Initial(width, height), msgs).1
    ensures forall x, y | 0 <= x < width && 0 <= y < height ::
      image[x, y] == Serve(width, height, Initial(width, height), msgs).0.grid[y][x]
  {
    var master := new Master(width, height);
    outs := master.Run(msgs);
    image := master.image;
  }
}
