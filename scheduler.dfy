/** The per-section search and the batch scheduler (src/main.rs). The
    worker threads are run one after another in spawn order, which is the
    order in which their results are joined and merged. The two search
    functions the scheduler calls (`get_all_return_positions`,
    `find_biggest_gadget_from_position`) are parameters. */
module Scheduler {
  import opened Common
  import opened Sections
  import opened Gadgets

  /** `get_all_return_positions(section)`. */
  type ReturnPositions = Section -> Outcome<seq<nat>>

  /** `find_biggest_gadget_from_position(section, pos)`. */
  type Biggest = (Section, nat) -> Outcome<Gadget>

  // ---------------------------------------------------------------------
  // process_section
  // ---------------------------------------------------------------------

  /** The gadgets found from the positions `ps`: a panic of any search
      panics; a search that returns an error is skipped. */
  function GadgetsFrom(biggest: Biggest, section: Section, ps: seq<nat>): Outcome<seq<Gadget>>
    ensures !GadgetsFrom(biggest, section, ps).Err?
  {
    if ps == [] then Ok([])
    else
      var front := GadgetsFrom(biggest, section, ps[..|ps| - 1]);
      var g := biggest(section, ps[|ps| - 1]);
      if front.Panic? || g.Panic? then Panic
      else Ok(front.value + (if g.Ok? then [g.value] else []))
  }

  /** What `process_section` returns: the error of the position search is
      passed on with `?`. */
  function ProcessSectionSpec(returnPositions: ReturnPositions, biggest: Biggest, section: Section)
    : Outcome<seq<Gadget>>
  {
    match returnPositions(section)
    case Ok(ps) => GadgetsFrom(biggest, section, ps)
    case Err(e) => Err(e)
    case Panic => Panic
  }

  /** `process_section`: one search per position, keeping the successful
      ones. */
  method ProcessSection(returnPositions: ReturnPositions, biggest: Biggest, section: Section)
    returns (r: Outcome<seq<Gadget>>)
    ensures r == ProcessSectionSpec(returnPositions, biggest, section)
  {
    var positions := returnPositions(section);
    if !positions.Ok? {
      return if positions.Err? then Err(positions.error) else Panic;
    }
    var ps := positions.value;
    var gadgets: seq<Gadget> := [];
    for k := 0 to |ps|
      invariant GadgetsFrom(biggest, section, ps[..k]) == Ok(gadgets)
    {
      assert ps[..k + 1][..k] == ps[..k];
      var res := biggest(section, ps[k]);
      if res.Panic? {
        GadgetsFromPanics(biggest, section, ps);
        return Panic;
      }
      if res.Err? {
        assert gadgets + [] == gadgets;
        continue;
      }
      gadgets := gadgets + [res.value];
    }
    assert ps[..|ps|] == ps;
    r := Ok(gadgets);
  }

  /** The indices of the positions whose search succeeds, ascending. */
  function OkIndices(biggest: Biggest, section: Section, ps: seq<nat>): (idx: seq<nat>)
    ensures forall j :: 0 <= j < |idx| ==> idx[j] < |ps|
  {
    if ps == [] then []
    else
      OkIndices(biggest, section, ps[..|ps| - 1])
        + (if biggest(section, ps[|ps| - 1]).Ok? then [|ps| - 1] else [])
  }

  /** A section's search panics exactly when the search from one of its
      positions panics. */
  lemma {:induction false} GadgetsFromPanics(biggest: Biggest, section: Section, ps: seq<nat>)
    ensures GadgetsFrom(biggest, section, ps).Panic? <==> exists k :: 0 <= k < |ps| && biggest(section, ps[k]).Panic?
    decreases |ps|
  {
    if ps != [] {
      var n := |ps|;
      var front := ps[..n - 1];
      GadgetsFromPanics(biggest, section, front);
      if exists k :: 0 <= k < n - 1 && biggest(section, front[k]).Panic? {
        var k :| 0 <= k < n - 1 && biggest(section, front[k]).Panic?;
        assert ps[k] == front[k];
      }
      if exists k :: 0 <= k < n && biggest(section, ps[k]).Panic? {
        var k :| 0 <= k < n && biggest(section, ps[k]).Panic?;
        if k < n - 1 {
          assert front[k] == ps[k];
        }
      }
    }
  }

  /** The successful positions are listed once each, ascending, and
      every successful position is listed. */
  lemma {:induction false} OkIndicesSpec(biggest: Biggest, section: Section, ps: seq<nat>)
    ensures var idx := OkIndices(biggest, section, ps);
      && (forall i, j :: 0 <= i < j < |idx| ==> idx[i] < idx[j])
      && (forall k :: 0 <= k < |ps| ==> (biggest(section, ps[k]).Ok? <==> k in idx))
    decreases |ps|
  {
    if ps != [] {
      var n := |ps|;
      var front := ps[..n - 1];
      OkIndicesSpec(biggest, section, front);
      assert forall k :: 0 <= k < n - 1 ==> front[k] == ps[k];
    }
  }

  /** When the section's search succeeds, its gadgets are, in anchor
      order, exactly the results of the searches that succeed. */
  lemma {:induction false} GadgetsFromOk(biggest: Biggest, section: Section, ps: seq<nat>)
    requires GadgetsFrom(biggest, section, ps).Ok?
    ensures var r := GadgetsFrom(biggest, section, ps).value; var idx := OkIndices(biggest, section, ps);
      && |r| == |idx|
      && (forall j :: 0 <= j < |idx| ==> biggest(section, ps[idx[j]]) == Ok(r[j]))
    decreases |ps|
  {
    if ps != [] {
      var n := |ps|;
      var front := ps[..n - 1];
      GadgetsFromOk(biggest, section, front);
      var r := GadgetsFrom(biggest, section, ps).value;
      var idx := OkIndices(biggest, section, ps);
      var fidx := OkIndices(biggest, section, front);
      var fr := GadgetsFrom(biggest, section, front).value;
      forall j | 0 <= j < |idx| ensures biggest(section, ps[idx[j]]) == Ok(r[j]) {
        if j < |fidx| {
          assert idx[j] == fidx[j] && r[j] == fr[j];
          assert ps[fidx[j]] == front[fidx[j]];
        }
      }
    }
  }

  /** At most one gadget per position, and one for each when no search
      fails. */
  lemma AtMostOnePerPosition(biggest: Biggest, section: Section, ps: seq<nat>)
    ensures var r := GadgetsFrom(biggest, section, ps);
      r.Ok? ==> |r.value| <= |ps|
  {
    if GadgetsFrom(biggest, section, ps).Ok? {
      GadgetsFromOk(biggest, section, ps);
      OkIndicesBound(biggest, section, ps);
    }
  }

  lemma {:induction false} OkIndicesBound(biggest: Biggest, section: Section, ps: seq<nat>)
    ensures |OkIndices(biggest, section, ps)| <= |ps|
    ensures (forall k :: 0 <= k < |ps| ==> biggest(section, ps[k]).Ok?) ==> |OkIndices(biggest, section, ps)| == |ps|
    decreases |ps|
  {
    if ps != [] {
      OkIndicesBound(biggest, section, ps[..|ps| - 1]);
    }
  }

  // ---------------------------------------------------------------------
  // Workers and the merge
  // ---------------------------------------------------------------------

  /** What joining the thread of `thread_worker` gives: its gadgets, or
      nothing when the worker panicked, which includes `unwrap` on an
      error of `process_section`. */
  function WorkerResult(returnPositions: ReturnPositions, biggest: Biggest, s: Section): Option<seq<Gadget>>
  {
    match ProcessSectionSpec(returnPositions, biggest, s)
    case Ok(gs) => Some(gs)
    case _ => None
  }

  function Workers(returnPositions: ReturnPositions, biggest: Biggest, ss: seq<Section>)
    : (ws: seq<Option<seq<Gadget>>>)
    ensures |ws| == |ss|
  {
    seq(|ss|, i requires 0 <= i < |ss| => WorkerResult(returnPositions, biggest, ss[i]))
  }

  /** The gadgets of the joined workers, in join order. */
  function Flatten(ws: seq<Option<seq<Gadget>>>): seq<Gadget>
  {
    if ws == [] then []
    else Flatten(ws[..|ws| - 1]) + (if ws[|ws| - 1].Some? then ws[|ws| - 1].value else [])
  }

  lemma {:induction false} FlattenAppend(a: seq<Option<seq<Gadget>>>, b: seq<Option<seq<Gadget>>>)
    ensures Flatten(a + b) == Flatten(a) + Flatten(b)
    decreases |b|
  {
    if b == [] {
      assert a + b == a;
    } else {
      var n := |b|;
      assert (a + b)[..|a + b| - 1] == a + b[..n - 1];
      FlattenAppend(a, b[..n - 1]);
    }
  }

  /** What the scheduler appends for the sections `ss`. */
  function Merged(returnPositions: ReturnPositions, biggest: Biggest, ss: seq<Section>): seq<Gadget>
  {
    Flatten(Workers(returnPositions, biggest, ss))
  }

  /** The merge is section by section, in the sections' order. */
  lemma MergedAppend(returnPositions: ReturnPositions, biggest: Biggest, a: seq<Section>, b: seq<Section>)
    ensures Merged(returnPositions, biggest, a + b)
         == Merged(returnPositions, biggest, a) + Merged(returnPositions, biggest, b)
  {
    var wa, wb := Workers(returnPositions, biggest, a), Workers(returnPositions, biggest, b);
    var wab := Workers(returnPositions, biggest, a + b);
    forall i | 0 <= i < |wab| ensures wab[i] == (wa + wb)[i] {
      if i < |a| { assert (a + b)[i] == a[i]; } else { assert (a + b)[i] == b[i - |a|]; }
    }
    assert wab == wa + wb;
    FlattenAppend(wa, wb);
  }

  /** A succeeding section contributes exactly its gadgets; a failing one
      (an error or a panic in its worker) contributes nothing. */
  lemma MergedSingle(returnPositions: ReturnPositions, biggest: Biggest, s: Section)
    ensures Merged(returnPositions, biggest, [s])
         == (match ProcessSectionSpec(returnPositions, biggest, s) case Ok(gs) => gs case _ => [])
  {
    var w := Workers(returnPositions, biggest, [s]);
    assert w[0] == WorkerResult(returnPositions, biggest, s);
    assert w[..0] == [];
    assert Flatten(w) == Flatten(w[..0]) + (if w[0].Some? then w[0].value else []);
    match ProcessSectionSpec(returnPositions, biggest, s) {
      case Ok(gs) => assert w[0] == Some(gs);
      case Err(_) => assert w[0] == None;
      case Panic => assert w[0] == None;
    }
  }

  // ---------------------------------------------------------------------
  // find_gadgets
  // ---------------------------------------------------------------------

  /** Where a batch of at most `nb` sections starting at `i` ends. */
  function BatchEnd(i: nat, nb: nat, n: nat): (j: nat)
    requires i <= n
    ensures i <= j <= n
    ensures j - i <= nb
    ensures j == n || j == i + nb
  {
    if i + nb < n then i + nb else n
  }

  /** With no thread a batch schedules nothing, so `i` never advances and
      `while i < sections.len()` does not end when there are sections;
      with one thread or more every batch makes progress. */
  lemma BatchProgress(i: nat, nb: nat, n: nat)
    requires i < n
    ensures BatchEnd(i, nb, n) == i <==> nb == 0
  {
  }

  /** The spawning loop of one batch: `for n in 0..nb_thread`, a worker
      for `sections[i]` while there is one, `i` advancing by one per
      worker. The workers run here, one after another. */
  method SpawnBatch(returnPositions: ReturnPositions, biggest: Biggest, ss: seq<Section>, start: nat, nb: nat)
    returns (threads: seq<Option<seq<Gadget>>>, i: nat)
    requires start <= |ss|
    ensures i == BatchEnd(start, nb, |ss|)
    ensures threads == Workers(returnPositions, biggest, ss[start..i])
  {
    i := start;
    threads := [];
    for n := 0 to nb
      invariant i == BatchEnd(start, n, |ss|)
      invariant threads == Workers(returnPositions, biggest, ss[start..i])
    {
      if i < |ss| {
        var res := ProcessSection(returnPositions, biggest, ss[i]);
        var joined := if res.Ok? then Some(res.value) else None;
        assert ss[start..i + 1] == ss[start..i] + [ss[i]];
        threads := threads + [joined];
        i := i + 1;
      }
    }
  }

  /** The state `find_gadgets` reads and writes. */
  class Session {
    var sections: Option<seq<Section>>
    var nbThread: nat
    var gadgets: seq<Gadget>

    constructor (sections: Option<seq<Section>>, nbThread: nat)
      ensures this.sections == sections && this.nbThread == nbThread && this.gadgets == []
    {
      this.sections := sections;
      this.nbThread := nbThread;
      this.gadgets := [];
    }

    /** The gadgets `find_gadgets` appends. */
    function Appended(returnPositions: ReturnPositions, biggest: Biggest): seq<Gadget>
      reads this
    {
      if sections.Some? then Merged(returnPositions, biggest, sections.value) else []
    }

    /** `find_gadgets`: batches of at most `nb_thread` sections, each
        section's worker spawned in turn, then joined in spawn order and
        its gadgets appended. Returns true, with the count of appended
        gadgets. */
    method FindGadgets(returnPositions: ReturnPositions, biggest: Biggest) returns (ok: bool, total: nat)
      requires sections.None? || |sections.value| == 0 || nbThread >= 1
      modifies this
      ensures ok
      ensures sections == old(sections) && nbThread == old(nbThread)
      ensures gadgets == old(gadgets) + old(Appended(returnPositions, biggest))
      ensures total == |gadgets| - |old(gadgets)|
    {
      total := 0;
      if sections.Some? {
        var ss := sections.value;
        var nb := nbThread;
        var i := 0;
        while i < |ss|
          invariant 0 <= i <= |ss|
          invariant sections == old(sections) && nbThread == old(nbThread)
          invariant gadgets == old(gadgets) + Merged(returnPositions, biggest, ss[..i])
          invariant total == |Merged(returnPositions, biggest, ss[..i])|
          decreases |ss| - i
        {
          var start := i;
          var threads;
          threads, i := SpawnBatch(returnPositions, biggest, ss, start, nb);
          var count := JoinAll(threads);
          total := total + count;
          assert ss[..i] == ss[..start] + ss[start..i];
          MergedAppend(returnPositions, biggest, ss[..start], ss[start..i]);
        }
        assert ss[..|ss|] == ss;
      }
      ok := true;
    }

    /** The joining loop of one batch: each joined worker's gadgets are
        appended in spawn order; a worker that panicked adds nothing. */
    method JoinAll(threads: seq<Option<seq<Gadget>>>) returns (count: nat)
      modifies this
      ensures sections == old(sections) && nbThread == old(nbThread)
      ensures gadgets == old(gadgets) + Flatten(threads)
      ensures count == |Flatten(threads)|
    {
      count := 0;
      var t := 0;
      while t < |threads|
        invariant 0 <= t <= |threads|
        invariant sections == old(sections) && nbThread == old(nbThread)
        invariant gadgets == old(gadgets) + Flatten(threads[..t])
        invariant count == |Flatten(threads[..t])|
      {
        assert threads[..t + 1][..t] == threads[..t];
        match threads[t] {
          case Some(found) =>
            gadgets := gadgets + found;
            count := count + |found|;
          case None =>
        }
        t := t + 1;
      }
      assert threads[..|threads|] == threads;
    }
  }
}
