/**
 * The master and its workers together. Each worker has at most one message
 * on its way to the master (it sends, then blocks until answered), and the
 * master takes the next message from any worker that has one, so a run is
 * fixed by the order in which workers' messages are delivered: a schedule.
 * Every worker follows the worker loop: its first message has tag 0 and a
 * zeroed row, and after receiving index v it exits if v is at or past the
 * height, and otherwise sends row v tagged v.
 */
module Protocol {
  import opened Pixels
  import opened Escape
  import opened Messages
  import opened Master

  datatype Config = Config(width: nat, height: nat, iterations: nat, inside: Orbit)

  /** A worker: blocked with one message on its way to the master, or exited. */
  datatype Worker = Waiting(pending: Message) | Exited

  /** The workers (worker w has rank w + 1) and the messages the master has received, in order. */
  datatype System = System(workers: seq<Worker>, log: seq<Message>)

  /** n workers that have each sent their first contact. */
  function Start(cfg: Config, n: nat): System
  {
    System(seq(n, (w: nat) => Waiting(Message(w + 1, 0, Zeros(cfg.width)))), [])
  }

  /** The master after receiving the log from its initial state. */
  function MasterOf(cfg: Config, sys: System): (MasterState, seq<Outcome>)
  {
    Serve(cfg.width, cfg.height, Initial(cfg.width, cfg.height), sys.log)
  }

  /** What worker w does after receiving index v: exit at or past the height, otherwise send row v tagged v. */
  function NextOf(cfg: Config, w: nat, v: nat): Worker
  {
    if v < cfg.height then Waiting(Message(w + 1, v, Row(cfg.inside, cfg.iterations, cfg.width, v))) else Exited
  }

  /**
   * Worker w's message reaches the master, which answers it; the worker
   * then exits or computes the row it was given and sends it. Nothing
   * happens if w has no message on its way or the master has stopped.
   * The master receives exactly the named worker's message, or none.
   */
  function Deliver(cfg: Config, sys: System, w: nat): (r: System)
    ensures |r.workers| == |sys.workers|
    ensures r.log == sys.log || (w < |sys.workers| && sys.workers[w].Waiting? && r.log == sys.log + [sys.workers[w].pending])
    ensures forall v | 0 <= v < |sys.workers| && v != w :: r.workers[v] == sys.workers[v]
  {
    var r := MasterOf(cfg, sys);
    if w >= |sys.workers| || sys.workers[w].Exited? || Stopped(r.1) then sys
    else
      var m := sys.workers[w].pending;
      var o := Handle(cfg.width, cfg.height, r.0, m).1;
      var next := if o.Reply? then NextOf(cfg, w, o.value) else Exited;
      System(sys.workers[w := next], sys.log + [m])
  }

  /**
   * The system after delivering the workers' messages in the order
   * `schedule` names them: the master has received at most one message per
   * delivery, appended to what it had received before.
   */
  function Run(cfg: Config, sys: System, schedule: seq<nat>): (r: System)
    ensures |r.workers| == |sys.workers|
    ensures |sys.log| <= |r.log| <= |sys.log| + |schedule|
    ensures r.log[..|sys.log|] == sys.log
  {
    if schedule == [] then sys
    else
      var p := Run(cfg, sys, schedule[..|schedule| - 1]);
      var r := Deliver(cfg, p, schedule[|schedule| - 1]);
      assert r.log[..|p.log|] == p.log;
      assert r.log[..|sys.log|] == p.log[..|sys.log|];
      r
  }

  predicate NoDuplicates(s: seq<nat>)
  {
    forall i, j | 0 <= i < j < |s| :: s[i] != s[j]
  }

  /** Every received row message carries the row its tag names, and every message has the buffer's length. */
  predicate LogIsSound(cfg: Config, log: seq<Message>)
  {
    forall k | 0 <= k < |log| ::
      && |log[k].row| == cfg.width
      && (log[k].tag != 0 ==> log[k].tag < cfg.height && log[k].row == Row(cfg.inside, cfg.iterations, cfg.width, log[k].tag))
  }

  /** What a waiting worker has on its way: its own rank, a full row, and a row index handed out earlier and not yet returned. */
  predicate PendingIsSound(cfg: Config, sys: System)
  {
    forall w | 0 <= w < |sys.workers| && sys.workers[w].Waiting? ::
      var m := sys.workers[w].pending;
      && m.source == w + 1
      && |m.row| == cfg.width
      && (m.tag != 0 ==>
            && m.tag < cfg.height && m.tag < |sys.log|
            && m.row == Row(cfg.inside, cfg.iterations, cfg.width, m.tag)
            && m.tag !in PaintedTags(sys.log))
  }

  /** No two waiting workers carry the same row. */
  predicate PendingRowsDistinct(sys: System)
  {
    forall v, w | 0 <= v < w < |sys.workers| && sys.workers[v].Waiting? && sys.workers[w].Waiting? ::
      sys.workers[v].pending.tag != 0 ==> sys.workers[v].pending.tag != sys.workers[w].pending.tag
  }

  /** The invariant of every reachable system. */
  predicate Inv(cfg: Config, sys: System)
  {
    var outs := MasterOf(cfg, sys).1;
    && |outs| == |sys.log| && NoFault(outs)
    && LogIsSound(cfg, sys.log)
    && NoDuplicates(PaintedTags(sys.log))
    && (forall y | y in PaintedTags(sys.log) :: y < |sys.log|)
    && PendingIsSound(cfg, sys)
    && PendingRowsDistinct(sys)
  }

  lemma ServeAppend(width: nat, height: nat, s: MasterState, log: seq<Message>, m: Message)
    requires WellShaped(width, height, s)
    requires !Stopped(Serve(width, height, s, log).1)
    ensures var r := Serve(width, height, s, log);
      Serve(width, height, s, log + [m]) == (Handle(width, height, r.0, m).0, r.1 + [Handle(width, height, r.0, m).1])
  {
    assert (log + [m])[..|log|] == log;
  }

  lemma PaintedTagsAppend(log: seq<Message>, m: Message)
    ensures PaintedTags(log + [m]) == PaintedTags(log) + (if m.tag != 0 then [m.tag] else [])
  {
    assert (log + [m])[..|log|] == log;
  }

  /** The system at the start satisfies the invariant. */
  lemma StartInv(cfg: Config, n: nat)
    ensures Inv(cfg, Start(cfg, n))
  {
  }

  /** Worker w has a message on its way and the master is still receiving. */
  predicate Active(cfg: Config, sys: System, w: nat)
  {
    w < |sys.workers| && sys.workers[w].Waiting? && !Stopped(MasterOf(cfg, sys).1)
  }

  /**
   * One delivery from a reachable system: the master answers with the number
   * of messages it has received so far, without a fault.
   */
  lemma DeliverShape(cfg: Config, sys: System, w: nat)
    requires Inv(cfg, sys) && Active(cfg, sys, w)
    ensures Deliver(cfg, sys, w) == System(sys.workers[w := NextOf(cfg, w, |sys.log|)], sys.log + [sys.workers[w].pending])
    ensures var outs := MasterOf(cfg, Deliver(cfg, sys, w)).1;
      |outs| == |sys.log| + 1 && NoFault(outs)
  {
    var r := MasterOf(cfg, sys);
    var log := sys.log;
    var m := sys.workers[w].pending;
    var init := Initial(cfg.width, cfg.height);
    ServeReplies(cfg.width, cfg.height, init, log);
    ServeAppend(cfg.width, cfg.height, init, log, m);
    var o := Handle(cfg.width, cfg.height, r.0, m).1;
    assert o.Reply? && o.value == |log|;
    assert (r.1 + [o])[|log|] == o;
  }

  /** A delivery keeps the received messages sound, and the painted rows distinct and handed out earlier. */
  lemma DeliverLog(cfg: Config, sys: System, w: nat)
    requires Inv(cfg, sys) && Active(cfg, sys, w)
    ensures var log' := Deliver(cfg, sys, w).log;
      && LogIsSound(cfg, log')
      && NoDuplicates(PaintedTags(log'))
      && (forall y | y in PaintedTags(log') :: y < |log'|)
  {
    DeliverShape(cfg, sys, w);
    var m := sys.workers[w].pending;
    PaintedTagsAppend(sys.log, m);
  }

  /** A delivery keeps what waiting workers carry sound and pairwise distinct. */
  lemma DeliverPending(cfg: Config, sys: System, w: nat)
    requires Inv(cfg, sys) && Active(cfg, sys, w)
    ensures PendingIsSound(cfg, Deliver(cfg, sys, w))
    ensures PendingRowsDistinct(Deliver(cfg, sys, w))
  {
    DeliverShape(cfg, sys, w);
    var m := sys.workers[w].pending;
    PaintedTagsAppend(sys.log, m);
    var sys' := Deliver(cfg, sys, w);
    forall v | 0 <= v < |sys'.workers| && sys'.workers[v].Waiting? && v != w
      ensures sys'.workers[v].pending.tag != 0 ==> sys'.workers[v].pending.tag !in PaintedTags(sys'.log)
    {
      assert sys'.workers[v] == sys.workers[v];
    }
  }

  /**
   * Delivering any worker's message keeps the invariant: the master never
   * faults, the row index it hands out is the number of messages it has
   * received, larger than any index handed out before, and the row the
   * worker returns has not been painted yet.
   */
  lemma DeliverInv(cfg: Config, sys: System, w: nat)
    requires Inv(cfg, sys)
    ensures Inv(cfg, Deliver(cfg, sys, w))
  {
    if Active(cfg, sys, w) {
      DeliverShape(cfg, sys, w);
      DeliverLog(cfg, sys, w);
      DeliverPending(cfg, sys, w);
    }
  }

  /** Every system reached from the start by any schedule satisfies the invariant. */
  lemma {:induction false} RunInv(cfg: Config, n: nat, schedule: seq<nat>)
    ensures Inv(cfg, Run(cfg, Start(cfg, n), schedule))
    decreases |schedule|
  {
    if schedule == [] {
      StartInv(cfg, n);
    } else {
      var prefix := schedule[..|schedule| - 1];
      RunInv(cfg, n, prefix);
      DeliverInv(cfg, Run(cfg, Start(cfg, n), prefix), schedule[|schedule| - 1]);
    }
  }

  lemma SubsetCard(a: set<nat>, b: set<nat>)
    requires a <= b
    ensures |a| <= |b|
  {
    assert b == a + (b - a);
  }

  /** The numbers lo, lo + 1, ..., hi - 1. */
  function Range(lo: nat, hi: nat): (r: set<nat>)
    ensures forall y :: y in r <==> lo <= y < hi
    ensures |r| == if lo <= hi then hi - lo else 0
    decreases hi - lo
  {
    if lo >= hi then {} else {lo} + Range(lo + 1, hi)
  }

  lemma {:induction false} DistinctCard(s: seq<nat>)
    requires NoDuplicates(s)
    ensures |set i | 0 <= i < |s| :: s[i]| == |s|
    decreases |s|
  {
    if s != [] {
      var p := s[..|s| - 1];
      DistinctCard(p);
      assert (set i | 0 <= i < |s| :: s[i]) == (set i | 0 <= i < |p| :: p[i]) + {s[|s| - 1]};
    }
  }

  /**
   * A duplicate-free sequence with at least hi - lo elements, all in
   * [lo, hi), contains every number of [lo, hi).
   */
  lemma Pigeonhole(s: seq<nat>, lo: nat, hi: nat)
    requires NoDuplicates(s) && lo <= hi
    requires forall i | 0 <= i < |s| :: lo <= s[i] < hi
    requires |s| >= hi - lo
    ensures forall y | lo <= y < hi :: y in s
  {
    var elems := set i | 0 <= i < |s| :: s[i];
    DistinctCard(s);
    forall y | lo <= y < hi ensures y in s {
      if y !in s {
        SubsetCard(elems, Range(lo, hi) - {y});
      }
    }
  }

  /** In a sound log every painted tag is a row of the image other than row 0. */
  lemma {:induction false} PaintedTagsInImage(cfg: Config, log: seq<Message>)
    requires LogIsSound(cfg, log)
    ensures forall i | 0 <= i < |PaintedTags(log)| :: 1 <= PaintedTags(log)[i] < cfg.height
    decreases |log|
  {
    if log != [] {
      var p := log[..|log| - 1];
      assert LogIsSound(cfg, p) by {
        forall k | 0 <= k < |p| ensures p[k] == log[k] {
        }
      }
      PaintedTagsInImage(cfg, p);
    }
  }

  /** In a sound log the last row tagged y is row y as the kernel computes it, if y was painted at all. */
  lemma {:induction false} LastRowOfSoundLog(cfg: Config, log: seq<Message>, y: nat)
    requires LogIsSound(cfg, log)
    ensures LastRow(log, y) == if y != 0 && y in PaintedTags(log)
      then Some(Row(cfg.inside, cfg.iterations, cfg.width, y)) else None
    decreases |log|
  {
    if log != [] {
      var p := log[..|log| - 1];
      assert log == p + [log[|log| - 1]];
      PaintedTagsAppend(p, log[|log| - 1]);
      assert LogIsSound(cfg, p) by {
        forall k | 0 <= k < |p| ensures p[k] == log[k] {
        }
      }
      LastRowOfSoundLog(cfg, p, y);
    }
  }

  lemma {:induction false} OnceInDistinct(s: seq<nat>, y: nat)
    requires NoDuplicates(s)
    ensures multiset(s)[y] == if y in s then 1 else 0
    decreases |s|
  {
    if s != [] {
      var p := s[..|s| - 1];
      assert s == p + [s[|s| - 1]];
      OnceInDistinct(p, y);
    }
  }

  /** The image row y as the finished run shows it: row 0 black, every other row coloured from the kernel. */
  function PaintedRow(cfg: Config, y: nat): seq<Rgb>
  {
    if y == 0 then BlackRow(cfg.width)
    else ColourRow(Row(cfg.inside, cfg.iterations, cfg.width, y))
  }

  /**
   * When the master stops in a reachable system, every row 1 to height - 1
   * has been painted exactly once, row 0 never, and the image shows each
   * painted row as the kernel computes it, with row 0 left black.
   */
  lemma Coverage(cfg: Config, sys: System)
    requires Inv(cfg, sys) && Stopped(MasterOf(cfg, sys).1)
    ensures forall y | 1 <= y < cfg.height :: multiset(PaintedTags(sys.log))[y] == 1
    ensures multiset(PaintedTags(sys.log))[0] == 0
    ensures forall y | 0 <= y < cfg.height ::
              MasterOf(cfg, sys).0.grid[y] == PaintedRow(cfg, y)
  {
    StoppedHasPaintedEnough(cfg, sys);
    var tags: seq<nat> := PaintedTags(sys.log);
    PaintedTagsInImage(cfg, sys.log);
    if cfg.height >= 1 {
      Pigeonhole(tags, 1, cfg.height);
    }
    forall y: nat | y < cfg.height + 1
      ensures multiset(tags)[y] == (if 1 <= y < cfg.height then 1 else 0)
    {
      OnceInDistinct(tags, y);
    }
    StoppedGrid(cfg, sys.log);
  }

  /** The master exits only once `height - 1` rows have been painted. */
  lemma StoppedHasPaintedEnough(cfg: Config, sys: System)
    requires Inv(cfg, sys) && Stopped(MasterOf(cfg, sys).1)
    ensures |PaintedTags(sys.log)| >= cfg.height - 1
  {
    var outs := MasterOf(cfg, sys).1;
    var log := sys.log;
    var init := Initial(cfg.width, cfg.height);
    ServeExitFlags(cfg.width, cfg.height, init, log);
    var last := |log| - 1;
    assert outs[last].Reply? && outs[last].exit;
    assert log[..last + 1] == log;
  }

  /** Once every row from 1 up has been painted, row y of the image is the kernel's row y, coloured; row 0 stays black. */
  lemma StoppedGrid(cfg: Config, log: seq<Message>)
    requires LogIsSound(cfg, log)
    requires |Serve(cfg.width, cfg.height, Initial(cfg.width, cfg.height), log).1| == |log|
    requires forall y | 1 <= y < cfg.height :: y in PaintedTags(log)
    ensures forall y | 0 <= y < cfg.height ::
              Serve(cfg.width, cfg.height, Initial(cfg.width, cfg.height), log).0.grid[y] == PaintedRow(cfg, y)
  {
    var init := Initial(cfg.width, cfg.height);
    var r := Serve(cfg.width, cfg.height, init, log);
    ServePaints(cfg.width, cfg.height, init, log);
    assert log[..|r.1|] == log;
    forall y: nat | y < cfg.height
      ensures r.0.grid[y] == PaintedRow(cfg, y)
    {
      LastRowOfSoundLog(cfg, log, y);
    }
  }

  /**
   * Whatever order the workers' messages arrive in: the master hands out
   * the row indices 0, 1, 2, ... once each, each to the worker that asked,
   * and never faults; and if it stops, every row 1 to height - 1 has been
   * painted exactly once with the row the kernel computes, and row 0 never.
   */
  lemma RunCoverage(cfg: Config, n: nat, schedule: seq<nat>)
    ensures var sys := Run(cfg, Start(cfg, n), schedule);
      var outs := MasterOf(cfg, sys).1;
      && |outs| == |sys.log|
      && forall k | 0 <= k < |outs| :: outs[k].Reply? && outs[k].dest == sys.log[k].source && outs[k].value == k
    ensures var sys := Run(cfg, Start(cfg, n), schedule);
      var r := MasterOf(cfg, sys);
      Stopped(r.1) ==>
        && (forall y | 1 <= y < cfg.height :: multiset(PaintedTags(sys.log))[y] == 1)
        && multiset(PaintedTags(sys.log))[0] == 0
        && (forall y | 0 <= y < cfg.height :: r.0.grid[y] == PaintedRow(cfg, y))
  {
    var sys := Run(cfg, Start(cfg, n), schedule);
    RunInv(cfg, n, schedule);
    ServeReplies(cfg.width, cfg.height, Initial(cfg.width, cfg.height), sys.log);
    if Stopped(MasterOf(cfg, sys).1) {
      Coverage(cfg, sys);
    }
  }
}
