/**
 * The incremental update engine (`Automata::update` for `LifeLike` in src/lib.rs):
 * recompute the cells flagged as changed, then the unflagged cells they list as
 * neighbours, and nothing else.
 */
module Engine {
  import opened Rules
  import opened Neighborhood
  import Arith
  import VecOps

  // ---------------------------------------------------------------------------
  // Neighbour tables

  /** For each cell index, the eight cell indices it lists, all of them cells of the table. */
  ghost predicate WellFormed(nbrs: seq<seq<nat>>) {
    forall c :: 0 <= c < |nbrs| ==> |nbrs[c]| == 8 && forall k :: 0 <= k < 8 ==> nbrs[c][k] < |nbrs|
  }

  /** Row-major index of a cell. */
  function CellIndex(cell: Coord, width: nat): (index: nat)
    ensures cell.0 < width ==> index % width == cell.0 && index / width == cell.1
  {
    if cell.0 < width then
      Arith.DivModOfCell(cell.0, cell.1, width);
      cell.0 + cell.1 * width
    else
      cell.0 + cell.1 * width
  }

  lemma CellIndicesInRange(cells: seq<Coord>, size: Coord)
    requires forall k :: 0 <= k < |cells| ==> cells[k].0 < size.0 && cells[k].1 < size.1
    ensures forall k :: 0 <= k < |cells| ==> CellIndex(cells[k], size.0) < size.0 * size.1
  {
    forall k | 0 <= k < |cells| ensures CellIndex(cells[k], size.0) < size.0 * size.1 {
      Arith.IndexOfCell(cells[k].0, cells[k].1, size.0, size.1);
    }
  }

  /** Row-major indices of the cells the source lists around cell `index`. */
  function NeighborIndices(index: nat, size: Coord): (r: seq<nat>)
    requires size.0 >= 1 && size.1 >= 1
    ensures |r| == 8
    ensures index < size.0 * size.1 ==> forall k :: 0 <= k < 8 ==> r[k] < size.0 * size.1
  {
    var cells := MooreNeighborhoodWrapping((index % size.0, index / size.0), size);
    if index < size.0 * size.1 then
      Arith.CellOfIndex(index, size.0, size.1);
      CellIndicesInRange(cells, size);
      seq(8, k requires 0 <= k < 8 => CellIndex(cells[k], size.0))
    else
      seq(8, k requires 0 <= k < 8 => CellIndex(cells[k], size.0))
  }

  /** Every index listed for a cell of the grid is a cell of the grid. */
  lemma NeighborIndicesInRange(index: nat, size: Coord)
    requires index < size.0 * size.1
    ensures size.0 >= 1 && size.1 >= 1
    ensures forall k :: 0 <= k < 8 ==> NeighborIndices(index, size)[k] < size.0 * size.1
  {
    Arith.PositiveFactors(size.0, size.1);
  }

  /** The source's neighbour relation on a `size` grid, one entry per cell. */
  function NeighborTable(size: Coord): (t: seq<seq<nat>>)
    ensures |t| == size.0 * size.1
  {
    seq(size.0 * size.1, i requires 0 <= i < size.0 * size.1 =>
      Arith.PositiveFactors(size.0, size.1);
      NeighborIndices(i, size))
  }

  lemma NeighborTableWellFormed(size: Coord)
    ensures WellFormed(NeighborTable(size))
  {
    forall c | 0 <= c < size.0 * size.1
      ensures |NeighborTable(size)[c]| == 8
      ensures forall k :: 0 <= k < 8 ==> NeighborTable(size)[c][k] < size.0 * size.1
    {
      NeighborIndicesInRange(c, size);
    }
  }

  // ---------------------------------------------------------------------------
  // One cell's next state

  /** How many of the listed cells are alive, counting a cell listed twice twice. */
  function LiveCount(world: seq<bool>, ns: seq<nat>): (n: nat)
    requires forall k :: 0 <= k < |ns| ==> ns[k] < |world|
    ensures n <= |ns|
  {
    if ns == [] then 0
    else LiveCount(world, ns[..|ns| - 1]) + (if world[ns[|ns| - 1]] then 1 else 0)
  }

  /** Two worlds that agree on every listed cell give the same count. */
  lemma {:induction false} LiveCountAgree(a: seq<bool>, b: seq<bool>, ns: seq<nat>)
    requires forall k :: 0 <= k < |ns| ==> ns[k] < |a| && ns[k] < |b|
    requires forall k :: 0 <= k < |ns| ==> a[ns[k]] == b[ns[k]]
    ensures LiveCount(a, ns) == LiveCount(b, ns)
  {
    if ns != [] {
      LiveCountAgree(a, b, ns[..|ns| - 1]);
    }
  }

  /** The rule applied to cell `i`: its status and the live count of its listed neighbours. */
  function NextState(rule: LifeLike, world: seq<bool>, nbrs: seq<seq<nat>>, i: nat): (next: bool)
    requires rule.Valid() && WellFormed(nbrs) && |nbrs| == |world| && i < |world|
    ensures LiveCount(world, nbrs[i]) <= 8
    ensures next == rule.rules[EncodeIndex(world[i], LiveCount(world, nbrs[i]))]
  {
    Simulate(rule, world[i], LiveCount(world, nbrs[i]))
  }

  /** A full generation: every cell recomputed. */
  function Step(rule: LifeLike, world: seq<bool>, nbrs: seq<seq<nat>>): (next: seq<bool>)
    requires rule.Valid() && WellFormed(nbrs) && |nbrs| == |world|
    ensures |next| == |world|
  {
    seq(|world|, i requires 0 <= i < |world| => NextState(rule, world, nbrs, i))
  }

  // ---------------------------------------------------------------------------
  // The candidates of the second pass

  /** The listed cells that are not flagged, in listed order (what the first pass pushes). */
  function Unflagged(changes: seq<bool>, ns: seq<nat>): (pushed: seq<nat>)
    requires forall k :: 0 <= k < |ns| ==> ns[k] < |changes|
    ensures |pushed| <= |ns|
    ensures forall x :: x in pushed ==> x < |changes| && !changes[x]
  {
    if ns == [] then []
    else
      var last := ns[|ns| - 1];
      if changes[last] then Unflagged(changes, ns[..|ns| - 1])
      else Unflagged(changes, ns[..|ns| - 1]) + [last]
  }

  /** The pushed cells are exactly the listed cells that are not flagged. */
  lemma {:induction false} UnflaggedMeaning(changes: seq<bool>, ns: seq<nat>, j: nat)
    requires forall k :: 0 <= k < |ns| ==> ns[k] < |changes|
    ensures j in Unflagged(changes, ns) <==> j in ns && !changes[j]
  {
    if ns != [] {
      var init, last := ns[..|ns| - 1], ns[|ns| - 1];
      UnflaggedMeaning(changes, init, j);
      assert ns == init + [last];
      assert j in ns <==> j in init || j == last;
    }
  }

  /** Everything the first pass pushes onto `extras` while visiting the cells below `n`. */
  function CandidatesUpTo(changes: seq<bool>, nbrs: seq<seq<nat>>, n: nat): (r: seq<nat>)
    requires WellFormed(nbrs) && |nbrs| <= |changes| && n <= |changes|
    ensures forall x :: x in r ==> x < |changes| && !changes[x]
  {
    if n == 0 then []
    else if n - 1 < |nbrs| && changes[n - 1] then
      CandidatesUpTo(changes, nbrs, n - 1) + Unflagged(changes, nbrs[n - 1])
    else
      CandidatesUpTo(changes, nbrs, n - 1)
  }

  function Candidates(changes: seq<bool>, nbrs: seq<seq<nat>>): (r: seq<nat>)
    requires WellFormed(nbrs) && |nbrs| <= |changes|
    ensures forall x :: x in r ==> x < |changes| && !changes[x]
  {
    CandidatesUpTo(changes, nbrs, |changes|)
  }

  /** Cell `j` is listed as a neighbour by some flagged cell below `n`. */
  ghost predicate ListedByFlagged(changes: seq<bool>, nbrs: seq<seq<nat>>, j: nat, n: nat)
    requires |nbrs| <= |changes|
  {
    exists c :: 0 <= c < n && c < |nbrs| && changes[c] && j in nbrs[c]
  }

  /** The same, counted down one cell at a time. */
  ghost predicate ListedBelow(changes: seq<bool>, nbrs: seq<seq<nat>>, j: nat, n: nat)
    requires |nbrs| <= |changes|
  {
    n > 0 && (ListedBelow(changes, nbrs, j, n - 1) || (n - 1 < |nbrs| && changes[n - 1] && j in nbrs[n - 1]))
  }

  lemma {:induction false} ListedBelowMeaning(changes: seq<bool>, nbrs: seq<seq<nat>>, j: nat, n: nat)
    requires |nbrs| <= |changes|
    ensures ListedBelow(changes, nbrs, j, n) <==> ListedByFlagged(changes, nbrs, j, n)
  {
    if n > 0 {
      ListedBelowMeaning(changes, nbrs, j, n - 1);
      if ListedByFlagged(changes, nbrs, j, n) && !ListedByFlagged(changes, nbrs, j, n - 1) {
        var c :| 0 <= c < n && c < |nbrs| && changes[c] && j in nbrs[c];
        assert c == n - 1;
      }
    }
  }

  /** The cells the first pass pushes for a flagged cell `c` are unflagged grid cells it lists. */
  lemma UnflaggedOfCell(changes: seq<bool>, nbrs: seq<seq<nat>>, c: nat, j: nat)
    requires WellFormed(nbrs) && |nbrs| <= |changes| && c < |nbrs|
    ensures j in Unflagged(changes, nbrs[c]) <==> j in nbrs[c] && j < |nbrs| && !changes[j]
  {
    UnflaggedMeaning(changes, nbrs[c], j);
    if j in nbrs[c] {
      var k :| 0 <= k < |nbrs[c]| && nbrs[c][k] == j;
    }
  }

  /** Cell `j` is pushed while visiting the cells below `n` iff it is unflagged and listed by a flagged one. */
  ghost predicate CandidateBelow(changes: seq<bool>, nbrs: seq<seq<nat>>, n: nat, j: nat)
    requires WellFormed(nbrs) && |nbrs| <= |changes| && n <= |changes|
  {
    j in CandidatesUpTo(changes, nbrs, n) <==> j < |nbrs| && !changes[j] && ListedBelow(changes, nbrs, j, n)
  }

  lemma {:induction false} CandidatesUpToMeaning(changes: seq<bool>, nbrs: seq<seq<nat>>, n: nat, j: nat)
    requires WellFormed(nbrs) && |nbrs| <= |changes| && n <= |changes|
    ensures CandidateBelow(changes, nbrs, n, j)
    decreases n
  {
    if n == 0 {
      CandidatesNone(changes, nbrs, j);
    } else {
      CandidatesUpToMeaning(changes, nbrs, n - 1, j);
      CandidatesInduct(changes, nbrs, n, j);
    }
  }

  /** Before any cell is visited nothing is pushed and nothing is listed. */
  lemma CandidatesNone(changes: seq<bool>, nbrs: seq<seq<nat>>, j: nat)
    requires WellFormed(nbrs) && |nbrs| <= |changes|
    ensures CandidateBelow(changes, nbrs, 0, j)
  {
    assert CandidatesUpTo(changes, nbrs, 0) == [] && !ListedBelow(changes, nbrs, j, 0);
  }

  /** The inductive step of the meaning of the candidates. */
  lemma CandidatesInduct(changes: seq<bool>, nbrs: seq<seq<nat>>, n: nat, j: nat)
    requires WellFormed(nbrs) && |nbrs| <= |changes| && 0 < n <= |changes|
    requires CandidateBelow(changes, nbrs, n - 1, j)
    ensures CandidateBelow(changes, nbrs, n, j)
  {
    CandidatesStep(changes, nbrs, n, j);
    assert ListedBelow(changes, nbrs, j, n)
      <==> ListedBelow(changes, nbrs, j, n - 1) || (n - 1 < |nbrs| && changes[n - 1] && j in nbrs[n - 1]);
  }

  /** Visiting cell `n - 1` adds its unflagged listed cells, if it is flagged. */
  lemma CandidatesStep(changes: seq<bool>, nbrs: seq<seq<nat>>, n: nat, j: nat)
    requires WellFormed(nbrs) && |nbrs| <= |changes| && 0 < n <= |changes|
    ensures j in CandidatesUpTo(changes, nbrs, n)
        <==> (j in CandidatesUpTo(changes, nbrs, n - 1)
              || (n - 1 < |nbrs| && changes[n - 1] && j in nbrs[n - 1] && j < |nbrs| && !changes[j]))
  {
    var c := n - 1;
    var prev := CandidatesUpTo(changes, nbrs, c);
    if c < |nbrs| && changes[c] {
      assert CandidatesUpTo(changes, nbrs, n) == prev + Unflagged(changes, nbrs[c]);
      UnflaggedOfCell(changes, nbrs, c, j);
    } else {
      assert CandidatesUpTo(changes, nbrs, n) == prev;
    }
  }

  /**
   * A candidate is exactly an unflagged cell that some flagged cell lists as its
   * neighbour; in particular it is a cell of the grid.
   */
  lemma CandidatesMeaning(changes: seq<bool>, nbrs: seq<seq<nat>>, j: nat)
    requires WellFormed(nbrs) && |nbrs| <= |changes|
    ensures j in Candidates(changes, nbrs)
        <==> j < |nbrs| && !changes[j] && ListedByFlagged(changes, nbrs, j, |changes|)
  {
    CandidatesUpToMeaning(changes, nbrs, |changes|, j);
    ListedBelowMeaning(changes, nbrs, j, |changes|);
  }

  /** The second-pass list: the candidates after `sort_unstable` and `dedup`. */
  function Extras(changes: seq<bool>, nbrs: seq<seq<nat>>): (r: seq<nat>)
    requires WellFormed(nbrs) && |nbrs| <= |changes|
    ensures VecOps.StrictlyIncreasing(r)
    ensures forall x :: x in r <==> x in Candidates(changes, nbrs)
  {
    VecOps.SortThenDedup(Candidates(changes, nbrs));
    VecOps.Dedup(VecOps.Sort(Candidates(changes, nbrs)))
  }

  /**
   * The second-pass list is strictly increasing, so every candidate is recomputed once,
   * and holds exactly the unflagged grid cells a flagged cell lists.
   */
  lemma ExtrasProperties(changes: seq<bool>, nbrs: seq<seq<nat>>)
    requires WellFormed(nbrs) && |nbrs| <= |changes|
    ensures VecOps.StrictlyIncreasing(Extras(changes, nbrs))
    ensures forall j: nat :: (j in Extras(changes, nbrs)
        <==> j < |nbrs| && !changes[j] && ListedByFlagged(changes, nbrs, j, |changes|))
  {
    VecOps.SortThenDedup(Candidates(changes, nbrs));
    forall j: nat ensures j in Extras(changes, nbrs)
        <==> j < |nbrs| && !changes[j] && ListedByFlagged(changes, nbrs, j, |changes|)
    {
      CandidatesMeaning(changes, nbrs, j);
    }
  }

  // ---------------------------------------------------------------------------
  // What `update` leaves in `target`

  /** The cells `update` writes: the flagged ones and the candidates. */
  predicate Recomputed(changes: seq<bool>, nbrs: seq<seq<nat>>, i: nat)
    requires WellFormed(nbrs) && |nbrs| <= |changes|
  {
    (i < |nbrs| && changes[i]) || i in Candidates(changes, nbrs)
  }

  /** `target` after `update`: each recomputed cell holds its next state, every other bit is as it was. */
  function IncrementalResult(rule: LifeLike, world: seq<bool>, target: seq<bool>, changes: seq<bool>,
                             nbrs: seq<seq<nat>>): (r: seq<bool>)
    requires rule.Valid() && WellFormed(nbrs) && |nbrs| == |world|
    requires |changes| >= |world| && |target| >= |world|
    ensures |r| == |target|
  {
    seq(|target|, i requires 0 <= i < |target| =>
      if i < |world| && Recomputed(changes, nbrs, i) then NextState(rule, world, nbrs, i) else target[i])
  }

  /** The cells that differ between two generations (`fresh XOR stale`, as long as the shorter). */
  function Xor(current: seq<bool>, previous: seq<bool>): (d: seq<bool>)
    ensures |d| == if |current| <= |previous| then |current| else |previous|
  {
    seq(if |current| <= |previous| then |current| else |previous|,
        i requires 0 <= i < |current| && i < |previous| => current[i] != previous[i])
  }

  /** A relation in which a cell lists every cell that lists it. */
  ghost predicate Symmetric(nbrs: seq<seq<nat>>) {
    forall c, j :: 0 <= c < |nbrs| && 0 <= j < |nbrs| && j in nbrs[c] ==> c in nbrs[j]
  }

  /**
   * The quiescence argument, for a symmetric neighbour relation: when the world is one
   * full step past the generation still in `target`, and `changes` is their XOR, the
   * incremental result is the full next step.
   */
  lemma IncrementalIsFullStep(rule: LifeLike, nbrs: seq<seq<nat>>, previous: seq<bool>, current: seq<bool>)
    requires rule.Valid() && WellFormed(nbrs) && Symmetric(nbrs)
    requires |previous| == |nbrs|
    requires current == Step(rule, previous, nbrs)
    ensures IncrementalResult(rule, current, previous, Xor(current, previous), nbrs) == Step(rule, current, nbrs)
  {
    var changes := Xor(current, previous);
    var inc := IncrementalResult(rule, current, previous, changes, nbrs);
    var full := Step(rule, current, nbrs);
    forall i | 0 <= i < |nbrs| ensures inc[i] == full[i] {
      if !Recomputed(changes, nbrs, i) {
        CandidatesMeaning(changes, nbrs, i);
        forall k | 0 <= k < 8 ensures current[nbrs[i][k]] == previous[nbrs[i][k]] {
          var c := nbrs[i][k];
          assert c in nbrs[i];
        }
        LiveCountAgree(current, previous, nbrs[i]);
      }
    }
  }

  /** With every cell flagged (the safe first call) the incremental result is the full step. */
  lemma AllFlaggedIsFullStep(rule: LifeLike, nbrs: seq<seq<nat>>, world: seq<bool>, target: seq<bool>)
    requires rule.Valid() && WellFormed(nbrs) && |world| == |nbrs| && |target| == |world|
    ensures IncrementalResult(rule, world, target, seq(|world|, _ => true), nbrs) == Step(rule, world, nbrs)
  {
  }

  /**
   * The source's relation is not symmetric: on a 5 by 5 grid cell (1, 0), index 1, lists
   * (4, 4), index 24, but (4, 4) does not list (1, 0).
   */
  lemma SourceTableNotSymmetric()
    ensures 24 in NeighborTable((5, 5))[1] && 1 !in NeighborTable((5, 5))[24]
    ensures !Symmetric(NeighborTable((5, 5)))
  {
    var t := NeighborTable((5, 5));
    assert t[1] == NeighborIndices(1, (5, 5));
    assert t[24] == NeighborIndices(24, (5, 5));
    NeighborsOfCellOne();
    NeighborsOfLastCell();
    assert 24 == t[1][0];
  }

  lemma NeighborsOfCellOne()
    ensures NeighborIndices(1, (5, 5)) == [24, 21, 22, 2, 7, 6, 9, 4]
  {
    assert 1 % 5 == 1 && 1 / 5 == 0;
  }

  lemma NeighborsOfLastCell()
    ensures NeighborIndices(24, (5, 5)) == [18, 19, 15, 20, 0, 4, 3, 23]
  {
    assert 24 % 5 == 4 && 24 / 5 == 4;
  }

  // ---------------------------------------------------------------------------
  // The engine

  /**
   * The neighbour scan of the first pass: counts the live listed cells and collects,
   * in listed order, those that are not flagged.
   */
  method ScanNeighbors(world: seq<bool>, changes: seq<bool>, index: nat, size: Coord)
    returns (neighbors: nat, pushed: seq<nat>)
    requires |world| == size.0 * size.1 && |changes| >= |world| && index < |world|
    ensures size.0 >= 1 && size.1 >= 1
    ensures neighbors == LiveCount(world, NeighborIndices(index, size))
    ensures pushed == Unflagged(changes, NeighborIndices(index, size))
  {
    NeighborIndicesInRange(index, size);
    var ns := NeighborIndices(index, size);
    neighbors, pushed := ScanListed(world, changes, ns);
  }

  /** The loop of the scan over the listed (combined) neighbour indices. */
  method ScanListed(world: seq<bool>, changes: seq<bool>, ns: seq<nat>) returns (neighbors: nat, pushed: seq<nat>)
    requires |world| <= |changes|
    requires forall j :: 0 <= j < |ns| ==> ns[j] < |world|
    ensures neighbors == LiveCount(world, ns)
    ensures pushed == Unflagged(changes, ns)
  {
    neighbors, pushed := 0, [];
    for k := 0 to |ns|
      invariant neighbors == LiveCount(world, ns[..k])
      invariant pushed == Unflagged(changes, ns[..k])
    {
      var combined := ns[k];
      CountStep(world, ns, k);
      PushStep(changes, ns, k);
      if !changes[combined] {
        pushed := pushed + [combined];
      }
      if world[combined] {
        neighbors := neighbors + 1;
      }
    }
    assert ns[..|ns|] == ns;
  }

  /** One more listed cell adds one to the count if it is alive. */
  lemma CountStep(world: seq<bool>, ns: seq<nat>, k: nat)
    requires k < |ns|
    requires forall j :: 0 <= j < |ns| ==> ns[j] < |world|
    ensures LiveCount(world, ns[..k + 1]) == LiveCount(world, ns[..k]) + (if world[ns[k]] then 1 else 0)
  {
    assert ns[..k + 1][..k] == ns[..k];
  }

  /** One more listed cell is pushed if it is not flagged. */
  lemma PushStep(changes: seq<bool>, ns: seq<nat>, k: nat)
    requires k < |ns|
    requires forall j :: 0 <= j < |ns| ==> ns[j] < |changes|
    ensures changes[ns[k]] ==> Unflagged(changes, ns[..k + 1]) == Unflagged(changes, ns[..k])
    ensures !changes[ns[k]] ==> Unflagged(changes, ns[..k + 1]) == Unflagged(changes, ns[..k]) + [ns[k]]
  {
    assert ns[..k + 1][..k] == ns[..k];
  }

  /** The neighbour count of the second pass: the same count, without the pushes. */
  method CountAlive(world: seq<bool>, index: nat, size: Coord) returns (neighbors: nat)
    requires |world| == size.0 * size.1 && index < |world|
    ensures size.0 >= 1 && size.1 >= 1
    ensures neighbors == LiveCount(world, NeighborIndices(index, size))
  {
    NeighborIndicesInRange(index, size);
    var ns := NeighborIndices(index, size);
    neighbors := CountListed(world, ns);
  }

  /** The loop of the count over the listed neighbour indices. */
  method CountListed(world: seq<bool>, ns: seq<nat>) returns (neighbors: nat)
    requires forall j :: 0 <= j < |ns| ==> ns[j] < |world|
    ensures neighbors == LiveCount(world, ns)
  {
    neighbors := 0;
    for k := 0 to |ns|
      invariant neighbors == LiveCount(world, ns[..k])
    {
      CountStep(world, ns, k);
      if world[ns[k]] {
        neighbors := neighbors + 1;
      }
    }
    assert ns[..|ns|] == ns;
  }

  /** First-pass work for a flagged cell: its next state and the neighbours it pushes. */
  method VisitFlagged(rule: LifeLike, world: seq<bool>, changes: seq<bool>, index: nat, size: Coord)
    returns (next: bool, pushed: seq<nat>)
    requires rule.Valid()
    requires |world| == size.0 * size.1 && |changes| >= |world| && index < |world|
    ensures size.0 >= 1 && size.1 >= 1
    ensures next == Simulate(rule, world[index], LiveCount(world, NeighborIndices(index, size)))
    ensures pushed == Unflagged(changes, NeighborIndices(index, size))
  {
    var neighbors;
    neighbors, pushed := ScanNeighbors(world, changes, index, size);
    var status := world[index];
    next := Simulate(rule, status, neighbors);
  }

  /** Second-pass work for a candidate: its next state. */
  method Recompute(rule: LifeLike, world: seq<bool>, index: nat, size: Coord) returns (next: bool)
    requires rule.Valid()
    requires |world| == size.0 * size.1 && index < |world|
    ensures size.0 >= 1 && size.1 >= 1
    ensures next == Simulate(rule, world[index], LiveCount(world, NeighborIndices(index, size)))
  {
    var neighbors := CountAlive(world, index, size);
    var status := world[index];
    next := Simulate(rule, status, neighbors);
  }

  /** `nbrs` is the source's neighbour table of a `size` grid. */
  ghost predicate IsNeighborTable(nbrs: seq<seq<nat>>, size: Coord) {
    WellFormed(nbrs) && |nbrs| == size.0 * size.1
    && (|nbrs| > 0 ==> size.0 >= 1 && size.1 >= 1)
    && forall i {:trigger NeighborIndices(i, size)} :: 0 <= i < |nbrs| ==> nbrs[i] == NeighborIndices(i, size)
  }

  lemma NeighborTableIs(size: Coord)
    ensures IsNeighborTable(NeighborTable(size), size)
  {
    NeighborTableWellFormed(size);
    if size.0 * size.1 > 0 {
      Arith.PositiveFactors(size.0, size.1);
    }
  }

  /** `target` after the first pass has visited the cells below `n`. */
  ghost function AfterFirstPass(rule: LifeLike, world: seq<bool>, before: seq<bool>, changes: seq<bool>,
                                nbrs: seq<seq<nat>>, n: nat): (r: seq<bool>)
    requires rule.Valid() && WellFormed(nbrs) && |nbrs| == |world|
    requires |changes| >= |world| && |before| >= |world|
    ensures |r| == |before|
  {
    seq(|before|, j requires 0 <= j < |before| =>
      if j < n && j < |world| && changes[j] then NextState(rule, world, nbrs, j) else before[j])
  }

  lemma FirstPassStep(rule: LifeLike, world: seq<bool>, before: seq<bool>, changes: seq<bool>,
                      nbrs: seq<seq<nat>>, n: nat)
    requires rule.Valid() && WellFormed(nbrs) && |nbrs| == |world|
    requires |changes| >= |world| && |before| >= |world|
    requires n < |world| && changes[n]
    ensures AfterFirstPass(rule, world, before, changes, nbrs, n + 1)
         == AfterFirstPass(rule, world, before, changes, nbrs, n)[n := NextState(rule, world, nbrs, n)]
  {
  }

  lemma FirstPassSkip(rule: LifeLike, world: seq<bool>, before: seq<bool>, changes: seq<bool>,
                      nbrs: seq<seq<nat>>, n: nat)
    requires rule.Valid() && WellFormed(nbrs) && |nbrs| == |world|
    requires |changes| >= |world| && |before| >= |world|
    requires n >= |world| || !changes[n]
    ensures AfterFirstPass(rule, world, before, changes, nbrs, n + 1)
         == AfterFirstPass(rule, world, before, changes, nbrs, n)
  {
  }

  /** `target` after the second pass has visited the first `n` listed cells. */
  ghost function AfterSecondPass(rule: LifeLike, world: seq<bool>, before: seq<bool>, extras: seq<nat>,
                                 nbrs: seq<seq<nat>>, n: nat): (r: seq<bool>)
    requires rule.Valid() && WellFormed(nbrs) && |nbrs| == |world| && |before| >= |world|
    requires n <= |extras|
    ensures |r| == |before|
  {
    seq(|before|, j requires 0 <= j < |before| =>
      if j < |world| && j in extras[..n] then NextState(rule, world, nbrs, j) else before[j])
  }

  lemma SecondPassStep(rule: LifeLike, world: seq<bool>, before: seq<bool>, extras: seq<nat>,
                       nbrs: seq<seq<nat>>, n: nat)
    requires rule.Valid() && WellFormed(nbrs) && |nbrs| == |world| && |before| >= |world|
    requires n < |extras| && extras[n] < |world|
    ensures AfterSecondPass(rule, world, before, extras, nbrs, n + 1)
         == AfterSecondPass(rule, world, before, extras, nbrs, n)[extras[n] := NextState(rule, world, nbrs, extras[n])]
  {
    assert extras[..n + 1] == extras[..n] + [extras[n]];
  }

  /** Both passes together write exactly the incremental result. */
  lemma PassesAreIncremental(rule: LifeLike, world: seq<bool>, before: seq<bool>, changes: seq<bool>,
                             nbrs: seq<seq<nat>>)
    requires rule.Valid() && WellFormed(nbrs) && |nbrs| == |world|
    requires |changes| >= |world| && |before| >= |world|
    ensures AfterSecondPass(rule, world, AfterFirstPass(rule, world, before, changes, nbrs, |changes|),
                            Extras(changes, nbrs), nbrs, |Extras(changes, nbrs)|)
         == IncrementalResult(rule, world, before, changes, nbrs)
  {
    var extras := Extras(changes, nbrs);
    VecOps.SortThenDedup(Candidates(changes, nbrs));
    var first := AfterFirstPass(rule, world, before, changes, nbrs, |changes|);
    var both := AfterSecondPass(rule, world, first, extras, nbrs, |extras|);
    var result := IncrementalResult(rule, world, before, changes, nbrs);
    forall j | 0 <= j < |before|
      ensures both[j] == result[j]
    {
      PassesAt(rule, world, before, changes, nbrs, extras, j);
    }
    assert both == result;
  }

  /**
   * One cell at a time, for any second-pass list with the candidates' members: the cell is
   * recomputed iff it is flagged or a candidate.
   */
  lemma PassesAt(rule: LifeLike, world: seq<bool>, before: seq<bool>, changes: seq<bool>,
                 nbrs: seq<seq<nat>>, extras: seq<nat>, j: nat)
    requires rule.Valid() && WellFormed(nbrs) && |nbrs| == |world|
    requires |changes| >= |world| && |before| >= |world| && j < |before|
    requires j in extras <==> j in Candidates(changes, nbrs)
    ensures AfterSecondPass(rule, world, AfterFirstPass(rule, world, before, changes, nbrs, |changes|),
                            extras, nbrs, |extras|)[j]
         == IncrementalResult(rule, world, before, changes, nbrs)[j]
  {
    assert extras[..|extras|] == extras;
  }

  /**
   * The first pass: every flagged cell, in increasing order (`iter_ones`), gets its next
   * state, and its unflagged neighbours are pushed onto the returned list.
   */
  method FirstPass(rule: LifeLike, world: seq<bool>, target: array<bool>, changes: seq<bool>,
                   size: Coord, ghost nbrs: seq<seq<nat>>) returns (extras: seq<nat>)
    requires rule.Valid() && IsNeighborTable(nbrs, size)
    requires |world| == size.0 * size.1
    requires |changes| >= |world|
    requires forall i :: |world| <= i < |changes| ==> !changes[i]
    requires target.Length >= |world|
    modifies target
    ensures extras == Candidates(changes, nbrs)
    ensures target[..] == AfterFirstPass(rule, world, old(target[..]), changes, nbrs, |changes|)
  {
    ghost var before := target[..];
    extras := [];
    for index := 0 to |changes|
      invariant extras == CandidatesUpTo(changes, nbrs, index)
      invariant target[..] == AfterFirstPass(rule, world, before, changes, nbrs, index)
    {
      if changes[index] {
        assert index < |world|;
        ghost var prev := target[..];
        var next, pushed := VisitFlagged(rule, world, changes, index, size);
        assert nbrs[index] == NeighborIndices(index, size);
        extras := extras + pushed;
        target[index] := next;
        assert target[..] == prev[index := next];
        FirstPassStep(rule, world, before, changes, nbrs, index);
      } else {
        FirstPassSkip(rule, world, before, changes, nbrs, index);
      }
    }
  }

  /** The second pass: every listed candidate gets its next state. */
  method SecondPass(rule: LifeLike, world: seq<bool>, target: array<bool>, extras: seq<nat>,
                    size: Coord, ghost nbrs: seq<seq<nat>>)
    requires rule.Valid() && IsNeighborTable(nbrs, size)
    requires |world| == size.0 * size.1
    requires target.Length >= |world|
    requires forall j :: j in extras ==> j < |world|
    modifies target
    ensures target[..] == AfterSecondPass(rule, world, old(target[..]), extras, nbrs, |extras|)
  {
    ghost var before := target[..];
    for k := 0 to |extras|
      invariant target[..] == AfterSecondPass(rule, world, before, extras, nbrs, k)
    {
      var index := extras[k];
      assert index in extras;
      ghost var prev := target[..];
      var next := Recompute(rule, world, index, size);
      assert nbrs[index] == NeighborIndices(index, size);
      target[index] := next;
      assert target[..] == prev[index := next];
      SecondPassStep(rule, world, before, extras, nbrs, k);
    }
  }

  /**
   * `update`: the first pass recomputes every flagged cell and collects the listed
   * neighbours that are not flagged; those are sorted and deduplicated; the second
   * pass recomputes each. `world` and `changes` are borrowed immutably; only `target`
   * is written.
   */
  method Update(rule: LifeLike, world: seq<bool>, target: array<bool>, changes: seq<bool>, size: Coord)
    requires rule.Valid()
    requires |world| == size.0 * size.1
    requires |changes| >= |world|
    requires forall i :: |world| <= i < |changes| ==> !changes[i]
    requires target.Length >= |world|
    modifies target
    ensures target[..] == IncrementalResult(rule, world, old(target[..]), changes, NeighborTable(size))
  {
    ghost var nbrs := NeighborTable(size);
    NeighborTableIs(size);
    var extras := FirstPass(rule, world, target, changes, size, nbrs);
    extras := VecOps.Sort(extras);
    extras := VecOps.Dedup(extras);
    ExtrasProperties(changes, nbrs);
    SecondPass(rule, world, target, extras, size, nbrs);
    PassesAreIncremental(rule, world, old(target[..]), changes, nbrs);
  }
}
