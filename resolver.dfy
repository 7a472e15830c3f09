/**
 * What `solve_dependencies` computes, as functions on the packet's slots.
 *
 * A slot needs the dependency bits it reads and does not write itself
 * (`read & ~written`, kept to 8 bits). Placement goes in passes: each pass
 * scans the unplaced slots in program order and places every slot whose
 * needed bits were all written by slots placed before the pass began (the
 * "collapse" of the placed slots). Passes repeat until every slot is placed;
 * a pass that places nothing would repeat forever, which `Schedule` reports
 * as `None`.
 *
 * Unplaced slots are a sequence of flags, as the C code keeps them in
 * `original[]` (a non-NULL entry is an unplaced slot).
 */
module Resolver {
  import opened Wrappers
  import opened Bits
  import opened Registers
  import opened OpLog

  /** `read & ~written` of a slot, in 8 bits. */
  function Needed(d: Dep): nat
  {
    And(d.read, Not(d.written, 8))
  }

  /** Every needed bit of the slot is in `w`. */
  predicate Ready(d: Dep, w: nat)
  {
    And(Needed(d), w) == Needed(d)
  }

  /** Bit k is needed by a slot iff k < 8, the slot reads it and does not write it. */
  lemma NeededBits(d: Dep)
    ensures forall k: nat {:trigger Bit(Needed(d), k)} ::
      Bit(Needed(d), k) == (k < 8 && Bit(d.read, k) && !Bit(d.written, k))
  {
    NotBits(d.written, 8);
    AndBits(d.read, Not(d.written, 8));
  }

  /** A ready slot has each of its needed bits in `w`. */
  lemma ReadyHas(d: Dep, w: nat)
    requires Ready(d, w)
    ensures forall k: nat {:trigger Bit(Needed(d), k)} :: Bit(Needed(d), k) ==> Bit(w, k)
  {
    AndBits(Needed(d), w);
  }

  /** A slot whose needed bits are all in `w` is ready. */
  lemma ReadyIf(d: Dep, w: nat)
    requires forall k: nat {:trigger Bit(Needed(d), k)} :: Bit(Needed(d), k) ==> Bit(w, k)
    ensures Ready(d, w)
  {
    var n := Needed(d);
    AndBits(n, w);
    forall k: nat ensures Bit(And(n, w), k) == Bit(n, k) {
      assert Bit(And(n, w), k) == (Bit(n, k) && Bit(w, k));
    }
    BitsEqual(And(n, w), n);
  }

  /** `compute_collapse`: the OR of `written` over the slots in `order`. */
  function Collapse(deps: seq<Dep>, order: seq<nat>): nat
    requires forall j :: 0 <= j < |order| ==> order[j] < |deps|
  {
    if order == [] then 0
    else Or(Collapse(deps, order[..|order| - 1]), deps[order[|order| - 1]].written)
  }

  /** A bit is in the collapse iff some slot of `order` writes it. */
  lemma {:induction false} CollapseBits(deps: seq<Dep>, order: seq<nat>, b: nat)
    requires forall j :: 0 <= j < |order| ==> order[j] < |deps|
    ensures Bit(Collapse(deps, order), b) <==>
      exists j :: 0 <= j < |order| && Bit(deps[order[j]].written, b)
  {
    if order == [] {
      ZeroBits();
    } else {
      var init := order[..|order| - 1];
      CollapseBits(deps, init, b);
      OrBits(Collapse(deps, init), deps[order[|order| - 1]].written);
      if Bit(Collapse(deps, order), b) {
        if Bit(Collapse(deps, init), b) {
          var j :| 0 <= j < |init| && Bit(deps[init[j]].written, b);
          assert order[j] == init[j];
        }
      } else {
        forall j | 0 <= j < |order| ensures !Bit(deps[order[j]].written, b) {
          if j < |init| {
            assert order[j] == init[j];
          }
        }
      }
    }
  }

  /** Number of unplaced slots among the first m. */
  function CountTo(un: seq<bool>, m: nat): nat
    requires m <= |un|
  {
    if m == 0 then 0 else CountTo(un, m - 1) + (if un[m - 1] then 1 else 0)
  }

  /** Number of unplaced slots. */
  function Count(un: seq<bool>): nat
  {
    CountTo(un, |un|)
  }

  /** The slots among the first m that one pass against `w` places, in program order. */
  function Picked(deps: seq<Dep>, un: seq<bool>, w: nat, m: nat): seq<nat>
    requires m <= |un| <= |deps|
  {
    if m == 0 then []
    else Picked(deps, un, w, m - 1) + (if un[m - 1] && Ready(deps[m - 1], w) then [m - 1] else [])
  }

  /** The unplaced flags after that pass. */
  function Placed(deps: seq<Dep>, un: seq<bool>, w: nat): (r: seq<bool>)
    requires |un| <= |deps|
    ensures |r| == |un|
  {
    seq(|un|, k requires 0 <= k < |un| => un[k] && !Ready(deps[k], w))
  }

  /** No slot appears twice. */
  predicate Unique(o: seq<nat>)
  {
    forall a, b :: 0 <= a < b < |o| ==> o[a] != o[b]
  }

  /** In a sequence without repeats, no entry occurs before its own position. */
  lemma NotBefore(o: seq<nat>, k: nat)
    requires Unique(o) && k < |o|
    ensures o[k] !in o[..k]
  {
    forall j | 0 <= j < k ensures o[..k][j] != o[k] { }
  }

  /**
   * A pass places exactly the unplaced slots ready against `w`, in
   * ascending order, and each one it places stops being unplaced.
   */
  lemma PickedExactly(deps: seq<Dep>, un: seq<bool>, w: nat, m: nat)
    requires m <= |un| <= |deps|
    ensures forall k :: k in Picked(deps, un, w, m) <==> 0 <= k < m && un[k] && Ready(deps[k], w)
    ensures forall a, b :: 0 <= a < b < |Picked(deps, un, w, m)| ==>
      Picked(deps, un, w, m)[a] < Picked(deps, un, w, m)[b]
    ensures CountTo(Placed(deps, un, w), m) + |Picked(deps, un, w, m)| == CountTo(un, m)
  {
    PickedMembers(deps, un, w, m);
    PickedAscending(deps, un, w, m);
    PickedCounts(deps, un, w, m);
  }

  lemma {:induction false} PickedMembers(deps: seq<Dep>, un: seq<bool>, w: nat, m: nat)
    requires m <= |un| <= |deps|
    ensures forall k :: k in Picked(deps, un, w, m) <==> 0 <= k < m && un[k] && Ready(deps[k], w)
  {
    if m > 0 {
      PickedMembers(deps, un, w, m - 1);
    }
  }

  lemma {:induction false} PickedAscending(deps: seq<Dep>, un: seq<bool>, w: nat, m: nat)
    requires m <= |un| <= |deps|
    ensures forall a, b :: 0 <= a < b < |Picked(deps, un, w, m)| ==>
      Picked(deps, un, w, m)[a] < Picked(deps, un, w, m)[b]
  {
    if m > 0 {
      PickedAscending(deps, un, w, m - 1);
      PickedMembers(deps, un, w, m - 1);
      var p := Picked(deps, un, w, m - 1);
      assert forall a :: 0 <= a < |p| ==> p[a] in p;
    }
  }

  lemma {:induction false} PickedCounts(deps: seq<Dep>, un: seq<bool>, w: nat, m: nat)
    requires m <= |un| <= |deps|
    ensures CountTo(Placed(deps, un, w), m) + |Picked(deps, un, w, m)| == CountTo(un, m)
  {
    if m > 0 {
      PickedCounts(deps, un, w, m - 1);
    }
  }

  /** A prefix of the flags has no more unplaced slots than the whole. */
  lemma {:induction false} CountPrefix(un: seq<bool>, m: nat)
    requires m <= |un|
    ensures CountTo(un, m) <= Count(un)
    decreases |un| - m
  {
    if m < |un| {
      CountPrefix(un, m + 1);
    }
  }

  /** A pass places no more slots than are unplaced. */
  lemma {:induction false} PickedCount(deps: seq<Dep>, un: seq<bool>, w: nat, m: nat)
    requires m <= |un| <= |deps|
    ensures |Picked(deps, un, w, m)| <= CountTo(un, m) <= Count(un)
  {
    CountPrefix(un, m);
    if m > 0 {
      PickedCount(deps, un, w, m - 1);
    }
  }

  function AllUnplaced(n: nat): (r: seq<bool>)
    ensures |r| == n && forall k :: 0 <= k < n ==> r[k]
  {
    seq(n, k => true)
  }

  /** The flags mark exactly the slots not in `order`, and none is placed twice. */
  predicate Consistent(n: nat, un: seq<bool>, order: seq<nat>)
  {
    |un| == n && Unique(order) && Below(order, n) &&
    (forall k :: 0 <= k < n ==> (un[k] <==> k !in order)) &&
    |order| + Count(un) == n
  }

  lemma {:induction false} CountAllTo(n: nat, m: nat)
    requires m <= n
    ensures CountTo(AllUnplaced(n), m) == m
  {
    if m > 0 {
      CountAllTo(n, m - 1);
    }
  }

  lemma CountAll(n: nat)
    ensures Count(AllUnplaced(n)) == n
  {
    CountAllTo(n, n);
  }

  lemma CountZero(un: seq<bool>, k: nat)
    requires Count(un) == 0 && k < |un|
    ensures !un[k]
  {
    CountPrefix(un, k + 1);
  }

  /** A pass keeps the flags and the order consistent. */
  lemma PassConsistent(deps: seq<Dep>, un: seq<bool>, order: seq<nat>, w: nat)
    requires Consistent(|deps|, un, order)
    ensures var p := Picked(deps, un, w, |un|);
      Consistent(|deps|, Placed(deps, un, w), order + p) &&
      Count(Placed(deps, un, w)) + |p| == Count(un)
  {
    var n := |deps|;
    var p := Picked(deps, un, w, n);
    PickedExactly(deps, un, w, n);
    var o := order + p;
    forall j | 0 <= j < |o| ensures o[j] < n {
      if j >= |order| { assert o[j] == p[j - |order|]; assert o[j] in p; }
    }
    forall a, b | 0 <= a < b < |o| ensures o[a] != o[b] {
      if b >= |order| && a < |order| {
        assert o[b] in p && o[a] in order;
      }
    }
  }

  /**
   * The order `solve_dependencies` ends with, from a state in which the
   * slots of `order` are placed; None when a pass would place nothing (the
   * C loop then never ends).
   */
  function Schedule(deps: seq<Dep>, un: seq<bool>, order: seq<nat>): Option<seq<nat>>
    requires Consistent(|deps|, un, order)
    decreases Count(un)
  {
    if |order| >= |deps| then Some(order)
    else
      var w := Collapse(deps, order);
      var p := Picked(deps, un, w, |un|);
      PassConsistent(deps, un, order, w);
      if p == [] then None else Schedule(deps, Placed(deps, un, w), order + p)
  }

  /** The final order of the packet's slots, from nothing placed. */
  function Order(deps: seq<Dep>): Option<seq<nat>>
  {
    CountAll(|deps|);
    Schedule(deps, AllUnplaced(|deps|), [])
  }

  /**
   * `ordering_needed`: `add_solved_deps` always returns the last slot
   * index, so the flag is raised exactly when a pass ends with some slot
   * still unplaced, which happens iff the first pass leaves one.
   */
  function OrderingNeeded(deps: seq<Dep>): bool
  {
    |Picked(deps, AllUnplaced(|deps|), 0, |deps|)| < |deps|
  }

  /**
   * The state of the resolving loop after some passes: `order` holds the
   * slots placed so far, `un` the rest, and `needed` records whether some
   * pass ended with a slot left unplaced. The schedule from here is the
   * schedule of the whole packet.
   */
  ghost predicate Progress(deps: seq<Dep>, un: seq<bool>, order: seq<nat>, needed: bool)
  {
    Consistent(|deps|, un, order) &&
    (order == [] ==> un == AllUnplaced(|deps|)) &&
    needed == (order != [] && OrderingNeeded(deps)) &&
    (0 < |order| < |deps| ==> OrderingNeeded(deps)) &&
    Schedule(deps, un, order) == Order(deps)
  }

  /** Before the first pass nothing is placed and nothing is flagged. */
  lemma ProgressStart(deps: seq<Dep>)
    ensures Progress(deps, AllUnplaced(|deps|), [], false)
  {
    CountAll(|deps|);
  }

  /**
   * What one pass of the loop does: a pass that places nothing leaves the
   * schedule without an end; otherwise the loop state after the pass is
   * again a `Progress` state, whose flag is raised iff a slot is still
   * unplaced or was already raised.
   */
  lemma PassStep(deps: seq<Dep>, un: seq<bool>, o: seq<nat>, needed: bool, w: nat, p: seq<nat>)
    requires Progress(deps, un, o, needed) && |o| < |deps|
    requires w == Collapse(deps, o) && p == Picked(deps, un, w, |deps|)
    ensures p == [] ==> Order(deps) == None
    ensures |o + p| <= |deps|
    ensures p != [] ==> Progress(deps, Placed(deps, un, w), o + p, needed || |o + p| < |deps|)
  {
    PassConsistent(deps, un, o, w);
  }

  /** Once every slot is placed, the loop state is the packet's order and its flag. */
  lemma ProgressDone(deps: seq<Dep>, un: seq<bool>, o: seq<nat>, needed: bool)
    requires Progress(deps, un, o, needed) && |o| >= |deps| > 0
    ensures Order(deps) == Some(o) && |o| == |deps|
    ensures needed == OrderingNeeded(deps)
  {
  }

  /** Every slot of `order` was ready against the slots placed before it. */
  predicate Respects(deps: seq<Dep>, order: seq<nat>)
    requires Below(order, |deps|)
    decreases |order|
  {
    order == [] ||
    (Respects(deps, order[..|order| - 1]) &&
     Ready(deps[order[|order| - 1]], Collapse(deps, order[..|order| - 1])))
  }

  lemma RespectsAt(deps: seq<Dep>, order: seq<nat>, j: nat)
    requires Below(order, |deps|) && Respects(deps, order) && j < |order|
    ensures Ready(deps[order[j]], Collapse(deps, order[..j]))
    decreases |order|
  {
    var init := order[..|order| - 1];
    if j < |order| - 1 {
      assert init[..j] == order[..j] && init[j] == order[j];
      RespectsAt(deps, init, j);
    }
  }

  /** Placing one more ready slot keeps an order respecting. */
  lemma RespectsSnoc(deps: seq<Dep>, order: seq<nat>, x: nat)
    requires Below(order, |deps|) && x < |deps|
    requires Respects(deps, order) && Ready(deps[x], Collapse(deps, order))
    ensures Below(order + [x], |deps|) && Respects(deps, order + [x])
  {
    assert (order + [x])[..|order|] == order;
  }

  /** More placed slots never lose a written bit. */
  lemma CollapseGrows(deps: seq<Dep>, a: seq<nat>, b: seq<nat>, k: nat)
    requires Below(a, |deps|) && Below(a + b, |deps|)
    requires Bit(Collapse(deps, a), k)
    ensures Bit(Collapse(deps, a + b), k)
  {
    CollapseBits(deps, a, k);
    CollapseBits(deps, a + b, k);
    var j :| 0 <= j < |a| && Bit(deps[a[j]].written, k);
    assert (a + b)[j] == a[j];
  }

  lemma ReadyGrows(d: Dep, deps: seq<Dep>, a: seq<nat>, b: seq<nat>)
    requires Below(a, |deps|) && Below(a + b, |deps|)
    requires Ready(d, Collapse(deps, a))
    ensures Ready(d, Collapse(deps, a + b))
  {
    ReadyHas(d, Collapse(deps, a));
    forall k: nat | Bit(Needed(d), k) ensures Bit(Collapse(deps, a + b), k) {
      CollapseGrows(deps, a, b, k);
    }
    ReadyIf(d, Collapse(deps, a + b));
  }

  /** The slots a pass places, appended to a respecting order, keep it respecting. */
  lemma {:induction false} PassRespects(deps: seq<Dep>, un: seq<bool>, order: seq<nat>, m: nat)
    requires m <= |un| == |deps|
    requires Below(order, |deps|) && Respects(deps, order)
    ensures var p := Picked(deps, un, Collapse(deps, order), m);
      Below(order + p, |deps|) && Respects(deps, order + p)
  {
    var w := Collapse(deps, order);
    if m > 0 {
      PassRespects(deps, un, order, m - 1);
      var p := Picked(deps, un, w, m - 1);
      if un[m - 1] && Ready(deps[m - 1], w) {
        assert order + Picked(deps, un, w, m) == (order + p) + [m - 1];
        ReadyGrows(deps[m - 1], deps, order, p);
        RespectsSnoc(deps, order + p, m - 1);
      } else {
        assert Picked(deps, un, w, m) == p;
      }
    } else {
      assert order + Picked(deps, un, w, m) == order;
    }
  }

  /** Everything a finished schedule promises about its order. */
  predicate Sound(deps: seq<Dep>, o: seq<nat>)
  {
    |o| == |deps| && Unique(o) && Below(o, |deps|) &&
    (forall k :: 0 <= k < |deps| ==> k in o) &&
    Respects(deps, o)
  }

  lemma Finished(deps: seq<Dep>, un: seq<bool>, order: seq<nat>)
    requires Consistent(|deps|, un, order) && |order| >= |deps|
    requires Respects(deps, order)
    ensures Sound(deps, order)
  {
    forall k | 0 <= k < |deps| ensures k in order {
      CountZero(un, k);
    }
  }

  /**
   * A schedule that ends keeps the placed prefix and ends with every slot
   * exactly once, each after the slots that write all the bits it needs.
   */
  lemma {:induction false} ScheduleSound(deps: seq<Dep>, un: seq<bool>, order: seq<nat>)
    requires Consistent(|deps|, un, order) && Respects(deps, order)
    ensures var r := Schedule(deps, un, order);
      r.Some? ==> Sound(deps, r.value) && |order| <= |r.value| && r.value[..|order|] == order
    decreases Count(un)
  {
    if |order| >= |deps| {
      Finished(deps, un, order);
    } else if Picked(deps, un, Collapse(deps, order), |un|) != [] {
      var w := Collapse(deps, order);
      var p := Picked(deps, un, w, |un|);
      ScheduleStep(deps, un, order);
      ScheduleSound(deps, Placed(deps, un, w), order + p);
      var r := Schedule(deps, un, order);
      if r.Some? {
        PrefixOfPrefix(r.value, order, p);
      }
    }
  }

  /** A pass that places something hands the schedule on to the next state. */
  lemma ScheduleStep(deps: seq<Dep>, un: seq<bool>, order: seq<nat>)
    requires Consistent(|deps|, un, order) && Respects(deps, order) && |order| < |deps|
    requires Picked(deps, un, Collapse(deps, order), |un|) != []
    ensures Consistent(|deps|, Placed(deps, un, Collapse(deps, order)), order + Picked(deps, un, Collapse(deps, order), |un|))
    ensures Count(Placed(deps, un, Collapse(deps, order))) < Count(un)
    ensures Respects(deps, order + Picked(deps, un, Collapse(deps, order), |un|))
    ensures Schedule(deps, un, order) ==
      Schedule(deps, Placed(deps, un, Collapse(deps, order)), order + Picked(deps, un, Collapse(deps, order), |un|))
  {
    PassConsistent(deps, un, order, Collapse(deps, order));
    PassRespects(deps, un, order, |un|);
  }

  lemma PrefixOfPrefix(r: seq<nat>, a: seq<nat>, b: seq<nat>)
    requires |a + b| <= |r| && r[..|a + b|] == a + b
    ensures |a| <= |r| && r[..|a|] == a
  {
    assert r[..|a|] == (r[..|a + b|])[..|a|];
  }

  /**
   * The resolver's order is a permutation of the slots in which every bit a
   * slot needs is written by a slot placed before it.
   */
  lemma OrderSound(deps: seq<Dep>)
    ensures var r := Order(deps);
      r.Some? ==>
        |r.value| == |deps| && Unique(r.value) && Below(r.value, |deps|) &&
        (forall k :: 0 <= k < |deps| ==> k in r.value) &&
        forall j, b :: 0 <= j < |deps| && Bit(Needed(deps[r.value[j]]), b) ==>
          exists m :: 0 <= m < j && Bit(deps[r.value[m]].written, b)
  {
    CountAll(|deps|);
    ScheduleSound(deps, AllUnplaced(|deps|), []);
    var r := Order(deps);
    if r.Some? {
      var o := r.value;
      forall j, b | 0 <= j < |deps| && Bit(Needed(deps[o[j]]), b)
        ensures exists m :: 0 <= m < j && Bit(deps[o[m]].written, b)
      {
        RespectsAt(deps, o, j);
        ReadyHas(deps[o[j]], Collapse(deps, o[..j]));
        CollapseBits(deps, o[..j], b);
        var m :| 0 <= m < j && Bit(deps[o[..j][m]].written, b);
        assert o[..j][m] == o[m];
      }
    }
  }

  /**
   * The loop only ends if every bit a slot needs is written by another
   * slot of the packet: a bit that no other slot writes makes it run
   * forever.
   */
  lemma EndsOnlyIfSupplied(deps: seq<Dep>, k: nat, b: nat)
    requires Order(deps).Some?
    requires k < |deps| && Bit(Needed(deps[k]), b)
    ensures exists j :: 0 <= j < |deps| && j != k && Bit(deps[j].written, b)
  {
    OrderSound(deps);
    var o := Order(deps).value;
    assert k in o;
    var pos :| 0 <= pos < |o| && o[pos] == k;
    var m :| 0 <= m < pos && Bit(deps[o[m]].written, b);
    assert o[m] != k;
  }

  /** With nothing placed, a slot is ready iff it needs nothing. */
  lemma ReadyAgainstNothing(d: Dep)
    ensures Ready(d, 0) <==> Needed(d) == 0
  {
  }

  lemma {:induction false} FirstPassSize(deps: seq<Dep>, m: nat)
    requires m <= |deps|
    ensures |Picked(deps, AllUnplaced(|deps|), 0, m)| <= m
    ensures |Picked(deps, AllUnplaced(|deps|), 0, m)| == m <==> forall k :: 0 <= k < m ==> Needed(deps[k]) == 0
  {
    if m > 0 {
      FirstPassSize(deps, m - 1);
      ReadyAgainstNothing(deps[m - 1]);
    }
  }

  /** `ordering_needed` is raised iff some slot of the packet needs a bit. */
  lemma OrderingNeededIff(deps: seq<Dep>)
    ensures OrderingNeeded(deps) <==> exists k :: 0 <= k < |deps| && Needed(deps[k]) != 0
  {
    FirstPassSize(deps, |deps|);
  }

  function Iota(n: nat): (r: seq<nat>)
    ensures |r| == n && forall k :: 0 <= k < n ==> r[k] == k
  {
    seq(n, k => k)
  }

  /**
   * A packet whose slots need nothing keeps program order, and nothing is
   * reordered.
   */
  lemma IndependentKeepsOrder(deps: seq<Dep>)
    requires forall k :: 0 <= k < |deps| ==> Needed(deps[k]) == 0
    ensures Order(deps) == Some(Iota(|deps|))
    ensures !OrderingNeeded(deps)
  {
    var n := |deps|;
    FirstPassSize(deps, n);
    CountAll(n);
    var all := AllUnplaced(n);
    if n > 0 {
      FirstPassTakesAll(deps, n);
      var p := Picked(deps, all, 0, n);
      PassConsistent(deps, all, [], 0);
      assert Collapse(deps, []) == 0;
      assert [] + p == p;
      assert Schedule(deps, all, []) == Schedule(deps, Placed(deps, all, 0), p);
    }
  }

  /** When no slot needs anything, the first pass places the first m slots in order. */
  lemma {:induction false} FirstPassTakesAll(deps: seq<Dep>, m: nat)
    requires m <= |deps|
    requires forall k :: 0 <= k < |deps| ==> Needed(deps[k]) == 0
    ensures Picked(deps, AllUnplaced(|deps|), 0, m) == Iota(m)
  {
    if m > 0 {
      FirstPassTakesAll(deps, m - 1);
      ReadyAgainstNothing(deps[m - 1]);
      assert Iota(m) == Iota(m - 1) + [m - 1];
    }
  }
}
