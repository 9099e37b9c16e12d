/**
 * The Spider module's edit state machine and carrier mix: six FM operators
 * whose modulation routing is a DirectedGraph, a two-press gesture that
 * selects an operator, flips its carrier flag or toggles an edge, the
 * panel lights that show carriers and edges, and the per-channel output
 * that sums the carrier operators and hard-clips the result.
 *
 * Brightnesses, voltages and parameter values are floats in the module;
 * here they are reals.
 */
module SpiderCore {
  import opened GraphTheory
  import opened DirectedGraphs

  const OperatorCount: nat := 6
  /** The first connection light: three select lights per operator come first. */
  const ConnectionLights: nat := 18
  const LightsLen: nat := 54

  /** The carrier (first) light of operator i's select button. */
  function SelectLight(i: nat): (id: nat)
    requires i < OperatorCount
    ensures id < ConnectionLights && id % 3 == 0
  {
    3 * i
  }

  /** The light of the matrix cell for the edge a -> b. */
  function ConnectionLight(a: nat, b: nat): (id: nat)
    requires a < OperatorCount && b < OperatorCount
    ensures ConnectionLights <= id < LightsLen
    ensures (id - ConnectionLights) / OperatorCount == a && (id - ConnectionLights) % OperatorCount == b
  {
    ConnectionLights + OperatorCount * a + b
  }

  /** Distinct cells have distinct lights, and none is a select light. */
  lemma ConnectionLightsDistinct(a: nat, b: nat, c: nat, d: nat)
    requires a < OperatorCount && b < OperatorCount && c < OperatorCount && d < OperatorCount
    ensures ConnectionLight(a, b) == ConnectionLight(c, d) <==> a == c && b == d
    ensures forall i :: 0 <= i < OperatorCount ==> SelectLight(i) != ConnectionLight(a, b)
  {
    if ConnectionLight(a, b) == ConnectionLight(c, d) {
      var k := ConnectionLight(a, b) - ConnectionLights;
      assert k / OperatorCount == a && k / OperatorCount == c;
    }
  }

  function Brightness(on: bool): real {
    if on then 1.0 else 0.0
  }

  /** Every matrix light is lit exactly when its edge is in the graph. */
  ghost predicate ShowsEdges(lights: seq<real>, adj: Adjacency)
    requires |lights| == LightsLen && |adj| == OperatorCount
  {
    forall a, b :: 0 <= a < OperatorCount && 0 <= b < OperatorCount ==>
      lights[ConnectionLight(a, b)] == Brightness(b in adj[a])
  }

  /** Every carrier light is lit exactly when its operator is a carrier. */
  ghost predicate ShowsCarriers(lights: seq<real>, carriers: seq<bool>)
    requires |lights| == LightsLen && |carriers| == OperatorCount
  {
    forall i :: 0 <= i < OperatorCount ==> lights[SelectLight(i)] == Brightness(carriers[i])
  }

  // ---------------------------------------------------------------------
  // Connection lights after a toggle of sel -> i

  /**
   * The light writes processEdit makes as written, reading its
   * reverse-edge branch as the header's RemovedRev: clear i -> sel and
   * light sel -> i.
   */
  function ToggleLightsAsWritten(lights: seq<real>, r: ToggleEdgeResult, sel: nat, i: nat): (l: seq<real>)
    requires |lights| == LightsLen && sel < OperatorCount && i < OperatorCount
    ensures |l| == LightsLen
  {
    match r
    case Added => lights[ConnectionLight(sel, i) := 1.0]
    case RemovedRev => lights[ConnectionLight(i, sel) := 0.0][ConnectionLight(sel, i) := 1.0]
    case Removed => lights[ConnectionLight(sel, i) := 0.0]
    case Cycle => lights
  }

  /** The corrected light writes: RemovedRev only clears the erased edge i -> sel. */
  function ToggleLights(lights: seq<real>, r: ToggleEdgeResult, sel: nat, i: nat): (l: seq<real>)
    requires |lights| == LightsLen && sel < OperatorCount && i < OperatorCount
    ensures |l| == LightsLen
    ensures forall k :: 0 <= k < ConnectionLights ==> l[k] == lights[k]
  {
    match r
    case Added => lights[ConnectionLight(sel, i) := 1.0]
    case RemovedRev => lights[ConnectionLight(i, sel) := 0.0]
    case Removed => lights[ConnectionLight(sel, i) := 0.0]
    case Cycle => lights
  }

  /** Entries of adj other than adj[x] are untouched by an update of adj[x]. */
  lemma ShowsEdgesUpdate(lights: seq<real>, adj: Adjacency, x: nat, list: seq<nat>, y: nat, on: bool)
    requires |lights| == LightsLen && |adj| == OperatorCount && x < OperatorCount && y < OperatorCount
    requires ShowsEdges(lights, adj)
    requires forall b :: 0 <= b < OperatorCount && b != y ==> (b in list <==> b in adj[x])
    requires (y in list) == on
    ensures ShowsEdges(lights[ConnectionLight(x, y) := Brightness(on)], adj[x := list])
  {
    var l := lights[ConnectionLight(x, y) := Brightness(on)];
    forall a, b | 0 <= a < OperatorCount && 0 <= b < OperatorCount
      ensures l[ConnectionLight(a, b)] == Brightness(b in adj[x := list][a])
    {
      ConnectionLightsDistinct(a, b, x, y);
    }
  }

  /**
   * With the corrected writes, the matrix keeps showing exactly the edges
   * of the graph after every toggle outcome.
   */
  lemma ToggleLightsShowEdges(lights: seq<real>, adj: Adjacency, rev: Adjacency, sel: nat, i: nat)
    requires |lights| == LightsLen && WellFormed(adj, rev, OperatorCount)
    requires sel < OperatorCount && i < OperatorCount && ShowsEdges(lights, adj)
    ensures var e := ToggleEdgeSpec(adj, rev, sel, i);
      ShowsEdges(ToggleLights(lights, e.result, sel, i), e.adj)
  {
    var e := ToggleEdgeSpec(adj, rev, sel, i);
    if i in adj[sel] {
      ShowsEdgesUpdate(lights, adj, sel, Remove(adj[sel], i), i, false);
    } else if sel in adj[i] {
      ShowsEdgesUpdate(lights, adj, i, Remove(adj[i], sel), sel, false);
    } else if e.result == Added {
      ShowsEdgesUpdate(lights, adj, sel, adj[sel] + [i], i, true);
    }
  }

  /**
   * The as-written writes break the matrix: with the single edge 1 -> 0
   * shown by its light, operator 0 selected and operator 1 pressed, toggleEdge erases 1 -> 0
   * and reports RemovedRev, yet the light of 0 -> 1 is switched on
   * although the graph now has no edge 0 -> 1.
   */
  lemma ToggleLightsAsWrittenWrong()
    ensures var adj := [[], [0], [], [], [], []];
      var rev := [[1], [], [], [], [], []];
      var lights := seq(LightsLen, k => if k == 24 then 1.0 else 0.0);
      var e := ToggleEdgeSpec(adj, rev, 0, 1);
      && WellFormed(adj, rev, OperatorCount) && ShowsEdges(lights, adj)
      && e.result == RemovedRev
      && !IsEdge(e.adj, 0, 1)
      && ToggleLightsAsWritten(lights, e.result, 0, 1)[ConnectionLight(0, 1)] == 1.0
      && !ShowsEdges(ToggleLightsAsWritten(lights, e.result, 0, 1), e.adj)
  {
    var adj: Adjacency := [[], [0], [], [], [], []];
    var rev: Adjacency := [[1], [], [], [], [], []];
    var lights := seq(LightsLen, k => if k == 24 then 1.0 else 0.0);
    SingleEdgeWellFormed(adj, rev);
    SingleEdgeShown(lights, adj);
    var e := ToggleEdgeSpec(adj, rev, 0, 1);
    assert 0 in adj[1];
    assert e.adj == adj[1 := Remove(adj[1], 0)];
    assert 1 !in e.adj[0];
  }

  /** The graph with the single edge 1 -> 0 keeps its two lists mirrored. */
  lemma SingleEdgeWellFormed(adj: Adjacency, rev: Adjacency)
    requires adj == [[], [0], [], [], [], []] && rev == [[1], [], [], [], [], []]
    ensures WellFormed(adj, rev, OperatorCount)
  {
    forall a, b | 0 <= a < OperatorCount && 0 <= b < OperatorCount
      ensures b in adj[a] <==> a in rev[b]
    {
      assert b in adj[a] <==> a == 1 && b == 0;
      assert a in rev[b] <==> a == 1 && b == 0;
    }
  }

  /** Light 24 alone on shows exactly the edge 1 -> 0. */
  lemma SingleEdgeShown(lights: seq<real>, adj: Adjacency)
    requires adj == [[], [0], [], [], [], []]
    requires lights == seq(LightsLen, k => if k == 24 then 1.0 else 0.0)
    ensures ShowsEdges(lights, adj)
  {
    forall a, b | 0 <= a < OperatorCount && 0 <= b < OperatorCount
      ensures lights[ConnectionLight(a, b)] == Brightness(b in adj[a])
    {
      ConnectionLightsDistinct(a, b, 1, 0);
      assert b in adj[a] <==> a == 1 && b == 0;
    }
  }

  // ---------------------------------------------------------------------
  // Carrier mix and clip, level and wave position

  /** The hard clip of process: values beyond +-1 are cut to +-1. */
  function Clip(x: real): (y: real)
    ensures -1.0 <= y <= 1.0
    ensures -1.0 <= x <= 1.0 ==> y == x
    ensures x > 1.0 ==> y == 1.0
    ensures x < -1.0 ==> y == -1.0
  {
    if x > 1.0 then 1.0 else if x < -1.0 then -1.0 else x
  }

  /** Rack's clamp(x, 0, 1): the minimum with 1 first, then the maximum with 0. */
  function Clamp01(x: real): (y: real)
    ensures 0.0 <= y <= 1.0
    ensures 0.0 <= x <= 1.0 ==> y == x
    ensures x < 0.0 ==> y == 0.0
    ensures x > 1.0 ==> y == 1.0
  {
    var m := if x < 1.0 then x else 1.0;
    if m > 0.0 then m else 0.0
  }

  /**
   * An operator's level: the knob plus the level input (volts over ten)
   * scaled by its CV attenuverter, clamped to [0, 1].
   */
  function ResolveLevel(levelParam: real, levelCv: real, levelVoltage: real): (level: real)
    ensures 0.0 <= level <= 1.0
    ensures var raw := levelParam + (levelVoltage / 10.0) * levelCv;
      (0.0 <= raw <= 1.0 ==> level == raw) && (raw <= 0.0 ==> level == 0.0) && (raw >= 1.0 ==> level == 1.0)
  {
    var levelInput := levelVoltage / 10.0;
    Clamp01(levelParam + levelInput * levelCv)
  }

  /** An operator's wave position: knob plus CV times input (volts over ten), clamped to [0, 1]. */
  function ResolveWavePos(wavePosParam: real, wavePosCv: real, waveVoltage: real): (wavePos: real)
    ensures 0.0 <= wavePos <= 1.0
    ensures var raw := wavePosParam + wavePosCv * (waveVoltage / 10.0);
      (0.0 <= raw <= 1.0 ==> wavePos == raw) && (raw <= 0.0 ==> wavePos == 0.0) && (raw >= 1.0 ==> wavePos == 1.0)
  {
    var wavePosInput := waveVoltage / 10.0;
    Clamp01(wavePosParam + wavePosCv * wavePosInput)
  }

  /** outs holds channel c of operator op at op * channels + c. */
  lemma SlotInRange(op: nat, c: nat, channels: nat)
    requires op < OperatorCount && c < channels
    ensures op * channels + c < OperatorCount * channels
  {
    assert op * channels + channels == (op + 1) * channels;
    assert (op + 1) * channels <= OperatorCount * channels;
  }

  /** The sum over operators below k that are carriers of their channel-c output. */
  function CarrierSum(carriers: seq<bool>, outs: seq<real>, channels: nat, c: nat, k: nat): (r: real)
    requires k <= |carriers| == OperatorCount && c < channels && |outs| == OperatorCount * channels
    ensures (forall j :: 0 <= j < k ==> !carriers[j]) ==> r == 0.0
  {
    if k == 0 then 0.0
    else
      SlotInRange(k - 1, c, channels);
      CarrierSum(carriers, outs, channels, c, k - 1) + (if carriers[k - 1] then outs[(k - 1) * channels + c] else 0.0)
  }

  /** Silence: when no carrier produces anything on channel c, the sum is zero. */
  lemma {:induction false} CarrierSumSilent(carriers: seq<bool>, outs: seq<real>, channels: nat, c: nat, k: nat)
    requires k <= |carriers| == OperatorCount && c < channels && |outs| == OperatorCount * channels
    requires forall op :: 0 <= op < k && carriers[op] ==> outs[op * channels + c] == 0.0
    ensures CarrierSum(carriers, outs, channels, c, k) == 0.0
  {
    if k > 0 {
      CarrierSumSilent(carriers, outs, channels, c, k - 1);
    }
  }

  /** Non-carriers contribute nothing: the sum depends on carrier outputs only. */
  lemma {:induction false} CarrierSumIgnoresModulators(carriers: seq<bool>, outs: seq<real>, outs': seq<real>, channels: nat, c: nat, k: nat)
    requires k <= |carriers| == OperatorCount && c < channels
    requires |outs| == OperatorCount * channels && |outs'| == OperatorCount * channels
    requires forall op :: 0 <= op < k && carriers[op] ==> outs[op * channels + c] == outs'[op * channels + c]
    ensures CarrierSum(carriers, outs, channels, c, k) == CarrierSum(carriers, outs', channels, c, k)
  {
    if k > 0 {
      CarrierSumIgnoresModulators(carriers, outs, outs', channels, c, k - 1);
    }
  }

  // ---------------------------------------------------------------------
  // The module

  /** A snapshot of the edit state of a Spider. */
  datatype EditState = EditState(
    adj: Adjacency, rev: Adjacency, carriers: seq<bool>, lights: seq<real>,
    topologicalOrder: seq<nat>, selectedOperator: int, cycleDetected: bool)

  /**
   * One press of operator i's button in processEdit, taking the edit state
   * s to s'; aborted tells whether the edit pass ends with it.
   */
  ghost predicate PressStep(s: EditState, i: nat, s': EditState, aborted: bool)
  {
    && i < OperatorCount && |s.lights| == LightsLen && |s.carriers| == OperatorCount
    && WellFormed(s.adj, s.rev, OperatorCount) && -1 <= s.selectedOperator < OperatorCount
    && if s.selectedOperator == -1 then
         !aborted && s' == s.(selectedOperator := i)
       else if s.selectedOperator == i then
         && !aborted
         && s' == s.(carriers := s.carriers[i := !s.carriers[i]],
                     lights := s.lights[SelectLight(i) := Brightness(!s.carriers[i])],
                     selectedOperator := -1)
       else
         var sel := s.selectedOperator;
         var e := ToggleEdgeSpec(s.adj, s.rev, sel, i);
         && aborted == (e.result == Cycle)
         && s' == s.(adj := e.adj, rev := e.rev,
                     lights := ToggleLights(s.lights, e.result, sel, i),
                     topologicalOrder := if aborted then s.topologicalOrder else KahnOrder(e.adj),
                     selectedOperator := -1,
                     cycleDetected := s.cycleDetected || aborted)
  }

  /**
   * trace[k] to trace[k + 1] is the press of handled[k]; only the last
   * press may abort, and it does exactly when aborted holds.
   */
  ghost predicate PressTrace(trace: seq<EditState>, handled: seq<nat>, aborted: bool)
  {
    && |trace| == |handled| + 1
    && forall k :: 0 <= k < |handled| ==> PressAt(trace, handled, aborted, k)
  }

  /** The k-th press of a trace: it aborts exactly when it is the last one and the trace aborts. */
  ghost predicate PressAt(trace: seq<EditState>, handled: seq<nat>, aborted: bool, k: nat)
  {
    k < |handled| && k + 1 < |trace| && PressStep(trace[k], handled[k], trace[k + 1], aborted && k == |handled| - 1)
  }

  /** A non-aborting trace followed by one more press is a trace. */
  lemma PressTraceExtend(trace: seq<EditState>, handled: seq<nat>, s: EditState, i: nat, aborted: bool)
    requires PressTrace(trace, handled, false)
    requires PressStep(trace[|trace| - 1], i, s, aborted)
    ensures PressTrace(trace + [s], handled + [i], aborted)
  {
    var t := trace + [s];
    var h := handled + [i];
    forall k | 0 <= k < |h| ensures PressAt(t, h, aborted, k) {
      if k < |handled| {
        assert PressAt(trace, handled, false, k);
        assert t[k] == trace[k] && t[k + 1] == trace[k + 1] && h[k] == handled[k];
      } else {
        assert t[k] == trace[|trace| - 1] && t[k + 1] == s && h[k] == i;
      }
    }
  }

  /** The pressed operators below i, in the order processEdit visits them. */
  function PressedUpTo(pressed: seq<bool>, i: nat): seq<nat>
    requires i <= |pressed|
  {
    if i == 0 then []
    else PressedUpTo(pressed, i - 1) + (if pressed[i - 1] then [i - 1] else [])
  }

  /**
   * PressedUpTo lists exactly the pressed operators below i, in strictly
   * increasing order, so each is visited once and in index order.
   */
  lemma {:induction false} PressedUpToExact(pressed: seq<bool>, i: nat)
    requires i <= |pressed|
    ensures var r := PressedUpTo(pressed, i);
      && (forall k :: 0 <= k < |r| ==> r[k] < i && pressed[r[k]])
      && (forall w :: 0 <= w < i && pressed[w] ==> w in r)
      && (forall a, b :: 0 <= a < b < |r| ==> r[a] < r[b])
  {
    if i > 0 {
      PressedUpToExact(pressed, i - 1);
    }
  }

  /** Without a press below i, no operator below i is handled. */
  lemma {:induction false} NoPressNoneHandled(pressed: seq<bool>, i: nat)
    requires i <= |pressed|
    ensures (forall j :: 0 <= j < i ==> !pressed[j]) ==> PressedUpTo(pressed, i) == []
  {
    if i > 0 {
      NoPressNoneHandled(pressed, i - 1);
    }
  }

  /** The presses handled before operator i come first among all the presses. */
  lemma {:induction false} PressedPrefix(pressed: seq<bool>, i: nat, j: nat)
    requires i <= j <= |pressed|
    ensures PressedUpTo(pressed, i) <= PressedUpTo(pressed, j)
    decreases j
  {
    if i < j {
      PressedPrefix(pressed, i, j - 1);
    }
  }

  class Spider {
    const algorithmGraph: DirectedGraph
    const carriers: array<bool>
    /** The panel lights: 18 select lights (3 per operator), then 36 connection lights. */
    const lights: array<real>
    var topologicalOrder: seq<nat>
    var selectedOperator: int
    var cycleDetected: bool

    /** Everything processEdit reads or writes, as one value. */
    ghost function State(): EditState
      reads this, algorithmGraph, carriers, lights
    {
      EditState(algorithmGraph.adj, algorithmGraph.rev, carriers[..], lights[..],
                topologicalOrder, selectedOperator, cycleDetected)
    }

    /**
     * Six operators, an acyclic routing graph, at most one selected
     * operator, an operator order that is a topological order of the graph,
     * and lights that show the graph's edges and the carriers.
     */
    ghost predicate Valid()
      reads this, algorithmGraph, carriers, lights
    {
      && algorithmGraph.n == OperatorCount && algorithmGraph.Valid()
      && carriers.Length == OperatorCount && lights.Length == LightsLen
      && -1 <= selectedOperator < OperatorCount
      && IsTopologicalOrder(algorithmGraph.adj, topologicalOrder)
      && ShowsEdges(lights[..], algorithmGraph.adj)
      && ShowsCarriers(lights[..], carriers[..])
    }

    /** A fresh module: no edges, no carriers, nothing selected, operators in index order. */
    constructor ()
      ensures Valid() && fresh(algorithmGraph) && fresh(carriers) && fresh(lights)
      ensures NoEdges(algorithmGraph.adj) && forall i :: 0 <= i < OperatorCount ==> !carriers[i]
      ensures topologicalOrder == Iota(OperatorCount) && selectedOperator == -1 && !cycleDetected
    {
      algorithmGraph := new DirectedGraph(OperatorCount);
      carriers := new bool[OperatorCount](_ => false);
      lights := new real[LightsLen](_ => 0.0);
      topologicalOrder := Iota(OperatorCount);
      selectedOperator := -1;
      cycleDetected := false;
      new;
      IotaIsTopologicalOrder(algorithmGraph.adj);
      SetConnectionLights();
      forall a, b | 0 <= a < OperatorCount && 0 <= b < OperatorCount
        ensures lights[ConnectionLight(a, b)] == Brightness(b in algorithmGraph.adj[a])
      {
        assert algorithmGraph.adj[a] == [];
      }
    }

    /**
     * setConnectionLights: switch on the light of every edge, leave the
     * other matrix lights as they are, then set the carrier lights.
     */
    method SetConnectionLights()
      requires algorithmGraph.n == OperatorCount && InRange(algorithmGraph.adj, OperatorCount)
      requires carriers.Length == OperatorCount && lights.Length == LightsLen
      modifies lights
      ensures forall a, b :: 0 <= a < OperatorCount && 0 <= b < OperatorCount ==>
        lights[ConnectionLight(a, b)] == (if b in algorithmGraph.adj[a] then 1.0 else old(lights[ConnectionLight(a, b)]))
      ensures ShowsCarriers(lights[..], carriers[..])
      ensures forall k :: 0 <= k < ConnectionLights && k % 3 != 0 ==> lights[k] == old(lights[k])
    {
      var adj := algorithmGraph.adj;
      for i := 0 to OperatorCount
        invariant forall a, b :: 0 <= a < OperatorCount && 0 <= b < OperatorCount ==>
          lights[ConnectionLight(a, b)] == (if a < i && b in adj[a] then 1.0 else old(lights[ConnectionLight(a, b)]))
        invariant forall k :: 0 <= k < ConnectionLights ==> lights[k] == old(lights[k])
      {
        for j := 0 to |adj[i]|
          invariant forall a, b :: 0 <= a < OperatorCount && 0 <= b < OperatorCount ==>
            lights[ConnectionLight(a, b)] ==
              (if (a < i && b in adj[a]) || (a == i && b in adj[i][..j]) then 1.0 else old(lights[ConnectionLight(a, b)]))
          invariant forall k :: 0 <= k < ConnectionLights ==> lights[k] == old(lights[k])
        {
          var dest := adj[i][j];
          assert dest in adj[i];
          assert adj[i][..j + 1] == adj[i][..j] + [dest];
          forall b | 0 <= b < OperatorCount {
            ConnectionLightsDistinct(i, dest, i, b);
          }
          lights[ConnectionLights + i * OperatorCount + dest] := 1.0;
          forall a, b | 0 <= a < OperatorCount && 0 <= b < OperatorCount {
            ConnectionLightsDistinct(a, b, i, dest);
          }
        }
        assert adj[i][..|adj[i]|] == adj[i];
      }
      SetCarrierLights();
    }

    /** setCarrierLights: each operator's carrier light shows its carrier flag. */
    method SetCarrierLights()
      requires carriers.Length == OperatorCount && lights.Length == LightsLen
      modifies lights
      ensures ShowsCarriers(lights[..], carriers[..])
      ensures forall k :: 0 <= k < LightsLen && k % 3 != 0 ==> lights[k] == old(lights[k])
      ensures forall k :: ConnectionLights <= k < LightsLen ==> lights[k] == old(lights[k])
    {
      for i := 0 to OperatorCount
        invariant forall j :: 0 <= j < i ==> lights[SelectLight(j)] == Brightness(carriers[j])
        invariant forall k :: 0 <= k < LightsLen && (k % 3 != 0 || k >= 3 * i) ==> lights[k] == old(lights[k])
      {
        lights[3 * i] := if carriers[i] then 1.0 else 0.0;
      }
    }

    /** clearConnectionLights: every carrier light and every matrix light off. */
    method ClearConnectionLights()
      requires lights.Length == LightsLen
      modifies lights
      ensures forall a, b :: 0 <= a < OperatorCount && 0 <= b < OperatorCount ==> lights[ConnectionLight(a, b)] == 0.0
      ensures forall i :: 0 <= i < OperatorCount ==> lights[SelectLight(i)] == 0.0
      ensures forall k :: 0 <= k < ConnectionLights && k % 3 != 0 ==> lights[k] == old(lights[k])
    {
      for i := 0 to OperatorCount
        invariant forall j :: 0 <= j < i ==> lights[SelectLight(j)] == 0.0
        invariant forall a, b :: 0 <= a < i && 0 <= b < OperatorCount ==> lights[ConnectionLight(a, b)] == 0.0
        invariant forall k :: 0 <= k < ConnectionLights && (k % 3 != 0 || k >= 3 * i) ==> lights[k] == old(lights[k])
      {
        lights[3 * i] := 0.0;
        for j := 0 to OperatorCount
          invariant lights[SelectLight(i)] == 0.0
          invariant forall j' :: 0 <= j' < i ==> lights[SelectLight(j')] == 0.0
          invariant forall a, b :: 0 <= a < OperatorCount && 0 <= b < OperatorCount && (a < i || (a == i && b < j)) ==>
            lights[ConnectionLight(a, b)] == 0.0
          invariant forall k :: 0 <= k < ConnectionLights && (k % 3 != 0 || k > 3 * i) ==> lights[k] == old(lights[k])
        {
          lights[ConnectionLights + i * OperatorCount + j] := 0.0;
        }
      }
    }

    /**
     * One operator button press in processEdit. With nothing selected it
     * selects i; on the selected operator it flips i's carrier flag and
     * deselects; on another operator it toggles the edge selected -> i,
     * and aborts the edit pass with cycleDetected raised when the edge
     * would close a cycle.
     */
    method Press(i: nat) returns (aborted: bool)
      requires Valid() && i < OperatorCount
      modifies this, algorithmGraph, carriers, lights
      ensures Valid()
      ensures PressStep(old(State()), i, State(), aborted)
    {
      aborted := false;
      if selectedOperator == i {
        FlipCarrier(i);
      } else if selectedOperator > -1 {
        aborted := ToggleConnection(selectedOperator as nat, i);
      } else {
        selectedOperator := i;
      }
    }

    /** Pressing the selected operator again: flip its carrier flag and light, deselect. */
    method FlipCarrier(i: nat)
      requires Valid() && i < OperatorCount && selectedOperator == i
      modifies this, carriers, lights
      ensures Valid()
      ensures State() == old(State()).(
                carriers := old(carriers[..])[i := !old(carriers[i])],
                lights := old(lights[..])[SelectLight(i) := Brightness(!old(carriers[i]))],
                selectedOperator := -1)
    {
      carriers[i] := !carriers[i];
      lights[3 * i] := if carriers[i] then 1.0 else 0.0;
      selectedOperator := -1;
      forall a, b | 0 <= a < OperatorCount && 0 <= b < OperatorCount
        ensures lights[ConnectionLight(a, b)] == old(lights[ConnectionLight(a, b)])
      {
        ConnectionLightsDistinct(a, b, a, b);
      }
    }

    /**
     * Pressing another operator while sel is selected: toggle the edge
     * sel -> i, update its light, re-sort the operators; a rejected edge
     * raises cycleDetected and aborts.
     */
    method ToggleConnection(sel: nat, i: nat) returns (aborted: bool)
      requires Valid() && i < OperatorCount && selectedOperator == sel && sel != i
      modifies this, algorithmGraph, lights
      ensures Valid()
      ensures var e := ToggleEdgeSpec(old(algorithmGraph.adj), old(algorithmGraph.rev), sel, i);
        && aborted == (e.result == Cycle)
        && State() == old(State()).(
             adj := e.adj, rev := e.rev,
             lights := ToggleLights(old(lights[..]), e.result, sel, i),
             topologicalOrder := if aborted then old(topologicalOrder) else KahnOrder(e.adj),
             selectedOperator := -1,
             cycleDetected := old(cycleDetected) || aborted)
    {
      ToggleLightsShowEdges(lights[..], algorithmGraph.adj, algorithmGraph.rev, sel, i);
      var result := algorithmGraph.ToggleEdge(sel, i);
      selectedOperator := -1;
      if result == Cycle {
        cycleDetected := true;
        return true;
      }
      aborted := false;
      WriteEdgeLight(result, sel, i);
      topologicalOrder := algorithmGraph.TopologicalSort();
    }

    /** The light writes that follow a successful toggle of sel -> i. */
    method WriteEdgeLight(result: ToggleEdgeResult, sel: nat, i: nat)
      requires lights.Length == LightsLen && sel < OperatorCount && i < OperatorCount
      modifies lights
      ensures lights[..] == ToggleLights(old(lights[..]), result, sel, i)
    {
      if result == Added {
        lights[ConnectionLights + OperatorCount * sel + i] := 1.0;
      } else if result == RemovedRev {
        lights[ConnectionLights + OperatorCount * i + sel] := 0.0;
      } else if result == Removed {
        lights[ConnectionLights + OperatorCount * sel + i] := 0.0;
      }
    }

    /**
     * The button part of processEdit: operators are visited in index
     * order and each pressed one is handled by Press, until a rejected
     * edge ends the pass. trace holds the edit state before the first
     * press and after each handled one; handled lists the operators
     * handled, which are the pressed ones in increasing order, cut off
     * after the press that aborts.
     */
    method ProcessEdit(pressed: seq<bool>) returns (ghost aborted: bool, ghost trace: seq<EditState>, ghost handled: seq<nat>)
      requires Valid() && |pressed| == OperatorCount
      modifies this, algorithmGraph, carriers, lights
      ensures Valid()
      ensures PressTrace(trace, handled, aborted)
      ensures trace[0] == old(State()) && trace[|trace| - 1] == State()
      ensures !aborted ==> handled == PressedUpTo(pressed, OperatorCount)
      ensures aborted ==> handled != [] && handled <= PressedUpTo(pressed, OperatorCount)
      ensures (forall i :: 0 <= i < OperatorCount ==> !pressed[i]) ==> State() == old(State())
      ensures !old(cycleDetected) && cycleDetected ==> selectedOperator == -1
    {
      ghost var s0 := State();
      var stop := false;
      trace := [s0];
      handled := [];
      for i := 0 to OperatorCount
        invariant Valid()
        invariant PressTrace(trace, handled, false)
        invariant trace[0] == s0 && trace[|trace| - 1] == State()
        invariant handled == PressedUpTo(pressed, i)
        invariant cycleDetected == s0.cycleDetected && !stop
      {
        stop, trace, handled := VisitOperator(pressed, i, trace, handled);
        if stop {
          break;
        }
      }
      aborted := stop;
      NoPressNoneHandled(pressed, OperatorCount);
    }

    /**
     * One turn of processEdit's loop: a pressed operator i is handled by
     * Press and recorded in the trace; an operator not pressed is skipped.
     */
    method VisitOperator(pressed: seq<bool>, i: nat, ghost trace: seq<EditState>, ghost handled: seq<nat>)
      returns (stop: bool, ghost trace': seq<EditState>, ghost handled': seq<nat>)
      requires Valid() && |pressed| == OperatorCount && i < OperatorCount
      requires PressTrace(trace, handled, false) && trace[|trace| - 1] == State()
      requires handled == PressedUpTo(pressed, i)
      modifies this, algorithmGraph, carriers, lights
      ensures Valid()
      ensures PressTrace(trace', handled', stop)
      ensures trace'[0] == trace[0] && trace'[|trace'| - 1] == State()
      ensures !stop ==> handled' == PressedUpTo(pressed, i + 1) && cycleDetected == old(cycleDetected)
      ensures stop ==> handled' != [] && handled' <= PressedUpTo(pressed, OperatorCount) && selectedOperator == -1
    {
      if !pressed[i] {
        return false, trace, handled;
      }
      stop := Press(i);
      PressTraceExtend(trace, handled, State(), i, stop);
      trace' := trace + [State()];
      handled' := handled + [i];
      if stop {
        PressedPrefix(pressed, i + 1, OperatorCount);
      }
    }

    /**
     * The output stage of process: each channel is five volts times the
     * clipped sum of the carrier operators' outputs on that channel.
     */
    method MixOutput(outs: seq<real>, channels: nat) returns (voltages: seq<real>)
      requires carriers.Length == OperatorCount && channels >= 1 && |outs| == OperatorCount * channels
      ensures |voltages| == channels
      ensures forall c :: 0 <= c < channels ==> voltages[c] == 5.0 * Clip(CarrierSum(carriers[..], outs, channels, c, OperatorCount))
      ensures forall c :: 0 <= c < channels ==> -5.0 <= voltages[c] <= 5.0
      ensures (forall op :: 0 <= op < OperatorCount ==> !carriers[op]) ==> forall c :: 0 <= c < channels ==> voltages[c] == 0.0
    {
      voltages := [];
      for c := 0 to channels
        invariant |voltages| == c
        invariant forall d :: 0 <= d < c ==> voltages[d] == 5.0 * Clip(CarrierSum(carriers[..], outs, channels, d, OperatorCount))
      {
        var output := 0.0;
        for op := 0 to OperatorCount
          invariant output == CarrierSum(carriers[..], outs, channels, c, op)
        {
          SlotInRange(op, c, channels);
          if carriers[op] {
            output := output + outs[op * channels + c];
          }
        }
        if output > 1.0 {
          output := 1.0;
        } else if output < -1.0 {
          output := -1.0;
        }
        voltages := voltages + [5.0 * output];
      }
      if forall op :: 0 <= op < OperatorCount ==> !carriers[op] {
        forall c | 0 <= c < channels ensures CarrierSum(carriers[..], outs, channels, c, OperatorCount) == 0.0 {
          CarrierSumSilent(carriers[..], outs, channels, c, OperatorCount);
        }
      }
    }

    /**
     * onReset: carriers off, all carrier and matrix lights off, the graph
     * emptied, operators in index order and nothing selected.
     * cycleDetected is left as it was.
     */
    method OnReset()
      requires Valid()
      modifies this, algorithmGraph, carriers, lights
      ensures Valid()
      ensures forall i :: 0 <= i < OperatorCount ==> !carriers[i]
      ensures algorithmGraph.adj == EmptyLists(OperatorCount) && algorithmGraph.rev == EmptyLists(OperatorCount)
      ensures topologicalOrder == [0, 1, 2, 3, 4, 5]
      ensures selectedOperator == -1 && cycleDetected == old(cycleDetected)
      ensures forall k :: 0 <= k < ConnectionLights && k % 3 != 0 ==> lights[k] == old(lights[k])
    {
      for i := 0 to OperatorCount
        modifies carriers
        invariant forall j :: 0 <= j < i ==> !carriers[j]
      {
        carriers[i] := false;
      }
      ClearConnectionLights();
      algorithmGraph.Clear();
      topologicalOrder := [0, 1, 2, 3, 4, 5];
      selectedOperator := -1;
      IotaIsTopologicalOrder(algorithmGraph.adj);
      assert topologicalOrder == Iota(OperatorCount);
      forall a, b | 0 <= a < OperatorCount && 0 <= b < OperatorCount
        ensures lights[ConnectionLight(a, b)] == Brightness(b in algorithmGraph.adj[a])
      {
        assert algorithmGraph.adj[a] == [];
      }
    }
  }
}
