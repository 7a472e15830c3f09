/**
 * The TCG op list the translator appends to and rearranges.
 *
 * An op is an identity (the `TCGOp *` the translator keeps in
 * `packet_first_op` and in each slot's `begin`/`end`) and a kind. Emission
 * (`tcg_gen_*`) appends an op with a fresh identity, `tcg_last_op` reads the
 * identity of the last op, and `tcg_op_move_range_after(b, e, p)` takes the
 * run of ops from `b` to `e` out of the list and puts it back right after
 * `p`. Identity 0 plays the part of the NULL pointer.
 */
module OpLog {

  /** The two register files a packet commits: general and control registers. */
  datatype RegFile = Gpr | Cr

  /** The three kinds of move the packet end emits between a register and its `_new` copy. */
  datatype Phase =
    | Commit   // R[reg] := R_new[reg]
    | Reset    // R_new[reg] := 0
    | Prime    // R_new[reg] := R[reg]

  /** What an op does, as far as the translator's own logic can tell. */
  datatype OpKind =
    | TbStart                                     // gen_tb_start
    | InsnStart(pc: nat)                          // tcg_gen_insn_start
    | PcTrace(pc: nat)                            // PC_trace := instruction address
    | Sem(tag: nat)                               // an op emitted by generated code
    | Move(phase: Phase, file: RegFile, reg: nat)
    | PcFallback(next: nat)                       // PC := PC_written > 0 ? PC : next
    | ClearPcWritten                              // PC_written := 0
    | ExitTb                                      // tcg_gen_exit_tb
    | TbEnd(icount: nat)                          // gen_tb_end

  datatype Op = Op(id: nat, kind: OpKind)

  /** The identity of the op at position k. */
  function IdAt(s: seq<Op>, k: nat): nat
    requires k < |s|
  {
    s[k].id
  }

  /** No two ops share an identity. */
  predicate Distinct(s: seq<Op>)
  {
    forall a, b :: 0 <= a < b < |s| ==> IdAt(s, a) != IdAt(s, b)
  }

  /** No op of x shares its identity with an op of y. */
  predicate Disjoint(x: seq<Op>, y: seq<Op>)
  {
    forall a, b :: 0 <= a < |x| && 0 <= b < |y| ==> IdAt(x, a) != IdAt(y, b)
  }

  function Ids(s: seq<Op>): (r: seq<nat>)
    ensures |r| == |s| && forall k :: 0 <= k < |s| ==> r[k] == s[k].id
  {
    seq(|s|, k requires 0 <= k < |s| => s[k].id)
  }

  function Kinds(s: seq<Op>): (r: seq<OpKind>)
    ensures |r| == |s| && forall k :: 0 <= k < |s| ==> r[k] == s[k].kind
  {
    seq(|s|, k requires 0 <= k < |s| => s[k].kind)
  }

  lemma KindsAppend(a: seq<Op>, b: seq<Op>)
    ensures Kinds(a + b) == Kinds(a) + Kinds(b)
  {
  }

  /** The ops emitted for `kinds`, numbered from `start`. */
  function Fresh(kinds: seq<OpKind>, start: nat): (r: seq<Op>)
    ensures |r| == |kinds| && Kinds(r) == kinds
    ensures forall k :: 0 <= k < |r| ==> r[k].id == start + k
  {
    seq(|kinds|, k requires 0 <= k < |kinds| => Op(start + k, kinds[k]))
  }

  lemma FreshSnoc(kinds: seq<OpKind>, k: OpKind, start: nat)
    ensures Fresh(kinds + [k], start) == Fresh(kinds, start) + [Op(start + |kinds|, k)]
  {
  }

  lemma FreshAppend(a: seq<OpKind>, b: seq<OpKind>, start: nat)
    ensures Fresh(a + b, start) == Fresh(a, start) + Fresh(b, start + |a|)
  {
  }

  function Last(s: seq<Op>): Op
    requires s != []
  {
    s[|s| - 1]
  }

  /** Position of the op with identity `id`. */
  function IndexOf(s: seq<Op>, id: nat): (k: nat)
    requires id in Ids(s)
    ensures k < |s| && s[k].id == id
    ensures forall j :: 0 <= j < k ==> s[j].id != id
  {
    if s[0].id == id then 0
    else
      assert id in Ids(s[1..]) by {
        var j :| 0 <= j < |s| && Ids(s)[j] == id;
        assert Ids(s[1..])[j - 1] == id;
      }
      1 + IndexOf(s[1..], id)
  }

  /** In a list without repeated identities, the position of an op is its only one. */
  lemma IndexOfDistinct(s: seq<Op>, k: nat)
    requires Distinct(s) && k < |s|
    ensures s[k].id in Ids(s) && IndexOf(s, s[k].id) == k
  {
    assert Ids(s)[k] == s[k].id;
    assert IdAt(s, IndexOf(s, s[k].id)) == IdAt(s, k);
  }

  /**
   * The list after the run at positions `lo..hi` is taken out and put back
   * right after the op at position `p`.
   */
  function MoveAfter(s: seq<Op>, lo: nat, hi: nat, p: nat): (r: seq<Op>)
    requires lo <= hi < |s| && p < |s| && !(lo <= p <= hi)
    ensures |r| == |s|
  {
    if p < lo then Swap(s, p + 1, lo, hi + 1) else Swap(s, lo, hi + 1, p + 1)
  }

  /** The list with its pieces `x..y` and `y..z` exchanged. */
  function Swap(s: seq<Op>, x: nat, y: nat, z: nat): (r: seq<Op>)
    requires x <= y <= z <= |s|
    ensures |r| == |s|
  {
    s[..x] + s[y..z] + s[x..y] + s[z..]
  }

  lemma DistinctAppend(x: seq<Op>, y: seq<Op>)
    ensures Distinct(x + y) <==> Distinct(x) && Distinct(y) && Disjoint(x, y)
  {
    if Distinct(x + y) {
      forall a, b | 0 <= a < |x| && 0 <= b < |y| ensures IdAt(x, a) != IdAt(y, b) {
        assert IdAt(x + y, a) != IdAt(x + y, |x| + b);
      }
      forall a, b | 0 <= a < b < |y| ensures IdAt(y, a) != IdAt(y, b) {
        assert IdAt(x + y, |x| + a) != IdAt(x + y, |x| + b);
      }
      forall a, b | 0 <= a < b < |x| ensures IdAt(x, a) != IdAt(x, b) {
        assert IdAt(x + y, a) != IdAt(x + y, b);
      }
    }
    if Distinct(x) && Distinct(y) && Disjoint(x, y) {
      forall a, b | 0 <= a < b < |x + y| ensures IdAt(x + y, a) != IdAt(x + y, b) {
        if b < |x| {
          assert IdAt(x, a) != IdAt(x, b);
        } else if a < |x| {
          assert IdAt(x, a) != IdAt(y, b - |x|);
        } else {
          assert IdAt(y, a - |x|) != IdAt(y, b - |x|);
        }
      }
    }
  }

  /** Swapping two neighbouring blocks keeps the identities distinct. */
  lemma DistinctSwap(a: seq<Op>, b: seq<Op>, c: seq<Op>, d: seq<Op>)
    requires Distinct(a + b + c + d)
    ensures Distinct(a + c + b + d)
  {
    DistinctAppend(a + b + c, d);
    DistinctAppend(a + b, c);
    DistinctAppend(a, b);
    DisjointAppendLeft(a, b, c);
    DisjointAppendLeft(a + b, c, d);
    DisjointAppendLeft(a, b, d);
    DisjointSymmetric(b, c);
    DistinctAppend(a, c);
    DisjointAppendLeft(a, c, b);
    DistinctAppend(a + c, b);
    DisjointAppendLeft(a, c, d);
    DisjointAppendLeft(a + c, b, d);
    DistinctAppend(a + c + b, d);
  }

  lemma DisjointSymmetric(x: seq<Op>, y: seq<Op>)
    requires Disjoint(x, y)
    ensures Disjoint(y, x)
  {
    forall a, b | 0 <= a < |y| && 0 <= b < |x| ensures IdAt(y, a) != IdAt(x, b) {
      assert IdAt(x, b) != IdAt(y, a);
    }
  }

  lemma DisjointAppendLeft(x: seq<Op>, y: seq<Op>, z: seq<Op>)
    ensures Disjoint(x + y, z) <==> Disjoint(x, z) && Disjoint(y, z)
  {
    if Disjoint(x, z) && Disjoint(y, z) {
      forall a, b | 0 <= a < |x + y| && 0 <= b < |z| ensures IdAt(x + y, a) != IdAt(z, b) {
        if a >= |x| {
          assert IdAt(y, a - |x|) != IdAt(z, b);
        } else {
          assert IdAt(x, a) != IdAt(z, b);
        }
      }
    }
    if Disjoint(x + y, z) {
      forall a, b | 0 <= a < |y| && 0 <= b < |z| ensures IdAt(y, a) != IdAt(z, b) {
        assert IdAt(x + y, |x| + a) != IdAt(z, b);
      }
      forall a, b | 0 <= a < |x| && 0 <= b < |z| ensures IdAt(x, a) != IdAt(z, b) {
        assert IdAt(x + y, a) != IdAt(z, b);
      }
    }
  }

  /**
   * The shape the translator relies on: in `P + M + Run + C`, moving the
   * run after the last op of `P` gives `P + Run + M + C`. The run is named
   * by its first and last ops and the target by its own op, as the C call
   * does.
   */
  lemma MoveAfterShape(P: seq<Op>, M: seq<Op>, Run: seq<Op>, C: seq<Op>, s: seq<Op>, b: nat, e: nat, p: nat)
    requires P != [] && Run != [] && s == P + M + Run + C && Distinct(s)
    requires b == Run[0].id && e == Last(Run).id && p == Last(P).id
    ensures b in Ids(s) && e in Ids(s) && p in Ids(s)
    ensures IndexOf(s, b) <= IndexOf(s, e) && !(IndexOf(s, b) <= IndexOf(s, p) <= IndexOf(s, e))
    ensures MoveAfter(s, IndexOf(s, b), IndexOf(s, e), IndexOf(s, p)) == P + Run + M + C
  {
    var lo, hi, at := |P| + |M|, |P| + |M| + |Run| - 1, |P| - 1;
    assert s[lo] == Run[0] && s[hi] == Last(Run) && s[at] == Last(P);
    IndexOfDistinct(s, lo);
    IndexOfDistinct(s, hi);
    IndexOfDistinct(s, at);
    assert IndexOf(s, Run[0].id) == lo && IndexOf(s, Last(Run).id) == hi && IndexOf(s, Last(P).id) == at;
    ShapeSlices(P, M, Run, C, at, lo, hi);
    assert MoveAfter(s, lo, hi, at) == s[..at + 1] + s[lo..hi + 1] + s[at + 1..lo] + s[hi + 1..];
  }

  /** The same with nothing after the run: the run moves from the end to right after `P`. */
  lemma MoveBackShape(P: seq<Op>, M: seq<Op>, Run: seq<Op>, s: seq<Op>, b: nat, e: nat, p: nat)
    requires P != [] && Run != [] && s == P + M + Run && Distinct(s)
    requires b == Run[0].id && e == Last(Run).id && p == Last(P).id
    ensures b in Ids(s) && e in Ids(s) && p in Ids(s)
    ensures IndexOf(s, b) <= IndexOf(s, e) && !(IndexOf(s, b) <= IndexOf(s, p) <= IndexOf(s, e))
    ensures MoveAfter(s, IndexOf(s, b), IndexOf(s, e), IndexOf(s, p)) == P + Run + M
  {
    assert s == P + M + Run + [];
    MoveAfterShape(P, M, Run, [], s, b, e, p);
    assert P + Run + M + [] == P + Run + M;
  }

  /** The four pieces of `P + M + Run + C`, cut out again by index. */
  lemma ShapeSlices(P: seq<Op>, M: seq<Op>, Run: seq<Op>, C: seq<Op>, at: nat, lo: nat, hi: nat)
    requires at + 1 == |P| && lo == |P| + |M| && hi + 1 == lo + |Run|
    ensures var s := P + M + Run + C;
      s[..at + 1] == P && s[at + 1..lo] == M && s[lo..hi + 1] == Run && s[hi + 1..] == C
  {
    var s := P + M + Run + C;
    assert s[..at + 1] == P;
    assert s[at + 1..lo] == M;
    assert s[lo..hi + 1] == Run;
    assert s[hi + 1..] == C;
  }

  lemma Regroup3(a: seq<Op>, b: seq<Op>, c: seq<Op>, d: seq<Op>)
    ensures a + (b + c + d) == a + b + c + d
  {
  }

  lemma LastAppend(a: seq<Op>, b: seq<Op>)
    requires b != []
    ensures Last(a + b) == Last(b)
  {
  }

  lemma Regroup(a: seq<Op>, b: seq<Op>, c: seq<Op>)
    ensures a + (b + c) == a + b + c
  {
  }

  lemma Regroup2(a: seq<Op>, b: seq<Op>, c: seq<Op>, d: seq<Op>)
    ensures a + b + c + d == (a + b) + (c + d)
  {
  }

  /** A list is its four pieces cut at x, y and z. */
  lemma Pieces(s: seq<Op>, x: nat, y: nat, z: nat)
    requires x <= y <= z <= |s|
    ensures s == s[..x] + s[x..y] + s[y..z] + s[z..]
  {
  }

  /** Swapping the pieces `x..y` and `y..z` of a list keeps its ops and their distinctness. */
  lemma SwapPieces(s: seq<Op>, x: nat, y: nat, z: nat)
    requires x <= y <= z <= |s|
    ensures forall op :: op in Swap(s, x, y, z) <==> op in s
    ensures Distinct(s) ==> Distinct(Swap(s, x, y, z))
  {
    Pieces(s, x, y, z);
    if Distinct(s) {
      DistinctSwap(s[..x], s[x..y], s[y..z], s[z..]);
    }
  }

  /** Moving a run keeps every op, adds none, and keeps identities distinct. */
  lemma MoveAfterPermutes(s: seq<Op>, lo: nat, hi: nat, p: nat)
    requires lo <= hi < |s| && p < |s| && !(lo <= p <= hi)
    ensures forall op :: op in MoveAfter(s, lo, hi, p) <==> op in s
    ensures Distinct(s) ==> Distinct(MoveAfter(s, lo, hi, p))
  {
    var x, y, z := if p < lo then p + 1 else lo, if p < lo then lo else hi + 1, if p < lo then hi + 1 else p + 1;
    assert MoveAfter(s, lo, hi, p) == Swap(s, x, y, z);
    SwapPieces(s, x, y, z);
  }

  /** The ops of consecutive runs, one after the other. */
  function Flatten(rs: seq<seq<Op>>): seq<Op>
  {
    if rs == [] then [] else Flatten(rs[..|rs| - 1]) + rs[|rs| - 1]
  }

  lemma FlattenSnoc(rs: seq<seq<Op>>, r: seq<Op>)
    ensures Flatten(rs + [r]) == Flatten(rs) + r
  {
    assert (rs + [r])[..|rs|] == rs;
  }

  /** Ops appended to the list grow its last run. */
  lemma FlattenGrowLast(rs: seq<seq<Op>>, x: seq<Op>)
    requires rs != []
    ensures Flatten(rs[..|rs| - 1] + [rs[|rs| - 1] + x]) == Flatten(rs) + x
  {
    FlattenSnoc(rs[..|rs| - 1], rs[|rs| - 1] + x);
  }

  /** A list that ends with a nonempty run ends with that run's last op. */
  lemma LastFlatten(prefix: seq<Op>, rs: seq<seq<Op>>)
    requires rs != [] && rs[|rs| - 1] != []
    ensures prefix + Flatten(rs) != [] && Last(prefix + Flatten(rs)) == Last(rs[|rs| - 1])
  {
    LastAppend(Flatten(rs[..|rs| - 1]), rs[|rs| - 1]);
    LastAppend(prefix, Flatten(rs));
  }

  /** Every entry of `o` names one of n runs (or slots). */
  predicate Below(o: seq<nat>, n: nat)
  {
    forall j :: 0 <= j < |o| ==> o[j] < n
  }

  /** The runs of `rs` in the order `o` lists them. */
  function Gather(rs: seq<seq<Op>>, o: seq<nat>): (r: seq<seq<Op>>)
    requires Below(o, |rs|)
    ensures |r| == |o| && forall j :: 0 <= j < |o| ==> r[j] == rs[o[j]]
  {
    seq(|o|, j requires 0 <= j < |o| => rs[o[j]])
  }

  lemma GatherSnoc(rs: seq<seq<Op>>, o: seq<nat>, k: nat)
    requires k < |o| && Below(o, |rs|)
    ensures Below(o[..k], |rs|) && Below(o[..k + 1], |rs|)
    ensures Flatten(Gather(rs, o[..k + 1])) == Flatten(Gather(rs, o[..k])) + rs[o[k]]
  {
    assert Gather(rs, o[..k + 1]) == Gather(rs, o[..k]) + [rs[o[k]]];
    FlattenSnoc(Gather(rs, o[..k]), rs[o[k]]);
  }

  /** The runs lo..hi-1 of `rs` that are not in `done`, in their original order. */
  function Rest(rs: seq<seq<Op>>, done: seq<nat>, lo: nat, hi: nat): seq<Op>
    requires lo <= hi <= |rs|
    decreases hi - lo
  {
    if lo == hi then [] else (if lo in done then [] else rs[lo]) + Rest(rs, done, lo + 1, hi)
  }

  lemma {:induction false} RestSplit(rs: seq<seq<Op>>, done: seq<nat>, lo: nat, x: nat, hi: nat)
    requires lo <= x <= hi <= |rs|
    ensures Rest(rs, done, lo, hi) == Rest(rs, done, lo, x) + Rest(rs, done, x, hi)
    decreases x - lo
  {
    if lo < x {
      RestSplit(rs, done, lo + 1, x, hi);
    }
  }

  /** Runs that agree on what is done agree on what is left. */
  lemma {:induction false} RestSame(rs: seq<seq<Op>>, d1: seq<nat>, d2: seq<nat>, lo: nat, hi: nat)
    requires lo <= hi <= |rs|
    requires forall j :: lo <= j < hi ==> (j in d1 <==> j in d2)
    ensures Rest(rs, d1, lo, hi) == Rest(rs, d2, lo, hi)
    decreases hi - lo
  {
    if lo < hi {
      RestSame(rs, d1, d2, lo + 1, hi);
    }
  }

  /** The rest is what is before run x, run x, and what is after it. */
  lemma RestAround(rs: seq<seq<Op>>, done: seq<nat>, x: nat)
    requires x < |rs| && x !in done
    ensures Rest(rs, done, 0, |rs|) ==
      Rest(rs, done, 0, x) + rs[x] + Rest(rs, done, x + 1, |rs|)
  {
    var n := |rs|;
    RestSplit(rs, done, 0, x, n);
    assert Rest(rs, done, x, n) == rs[x] + Rest(rs, done, x + 1, n);
  }

  /** Once run x is done, the rest is what was before it and what was after it. */
  lemma RestWithout(rs: seq<seq<Op>>, done: seq<nat>, x: nat)
    requires x < |rs|
    ensures Rest(rs, done + [x], 0, |rs|) ==
      Rest(rs, done, 0, x) + Rest(rs, done, x + 1, |rs|)
  {
    var n := |rs|;
    RestDone(rs, done, x);
    RestSplit(rs, done + [x], 0, x, n);
    RestSame(rs, done, done + [x], 0, x);
    RestSame(rs, done, done + [x], x + 1, n);
  }

  lemma RestDone(rs: seq<seq<Op>>, done: seq<nat>, x: nat)
    requires x < |rs|
    ensures Rest(rs, done + [x], x, |rs|) == Rest(rs, done + [x], x + 1, |rs|)
  {
    assert x in done + [x];
  }

  lemma {:induction false} RestNothingDone(rs: seq<seq<Op>>, n: nat)
    requires n <= |rs|
    ensures Rest(rs, [], 0, n) == Flatten(rs[..n])
  {
    if n > 0 {
      RestNothingDone(rs, n - 1);
      RestSplit(rs, [], 0, n - 1, n);
      assert rs[..n][..n - 1] == rs[..n - 1];
    }
  }

  lemma {:induction false} RestAllDone(rs: seq<seq<Op>>, done: seq<nat>, lo: nat, hi: nat)
    requires lo <= hi <= |rs|
    requires forall j :: lo <= j < hi ==> j in done
    ensures Rest(rs, done, lo, hi) == []
    decreases hi - lo
  {
    if lo < hi {
      RestAllDone(rs, done, lo + 1, hi);
    }
  }

  /** The ops before the runs, then the runs `o[..k]` in that order. */
  function Front(prefix: seq<Op>, rs: seq<seq<Op>>, o: seq<nat>, k: nat): seq<Op>
    requires k <= |o| && Below(o, |rs|)
  {
    prefix + Flatten(Gather(rs, o[..k]))
  }

  /**
   * The list while runs are put in the order `o`: the runs `o[..k]` follow
   * `prefix` in that order, and the others keep their places after them.
   */
  function Arranged(prefix: seq<Op>, rs: seq<seq<Op>>, o: seq<nat>, k: nat): seq<Op>
    requires k <= |o| && Below(o, |rs|)
  {
    Front(prefix, rs, o, k) + Rest(rs, o[..k], 0, |rs|)
  }

  /** Nothing arranged yet: the ops before the runs, then the runs as they are. */
  lemma ArrangedNone(prefix: seq<Op>, rs: seq<seq<Op>>, o: seq<nat>)
    requires Below(o, |rs|)
    ensures Front(prefix, rs, o, 0) == prefix
    ensures Arranged(prefix, rs, o, 0) == prefix + Flatten(rs)
  {
    assert o[..0] == [] && Gather(rs, []) == [];
    RestNothingDone(rs, |rs|);
    assert rs[..|rs|] == rs;
  }

  /** Everything arranged: the ops before the runs, then all runs in the order `o`. */
  lemma ArrangedAll(prefix: seq<Op>, rs: seq<seq<Op>>, o: seq<nat>)
    requires Below(o, |rs|) && forall j :: 0 <= j < |rs| ==> j in o
    ensures Arranged(prefix, rs, o, |o|) == prefix + Flatten(Gather(rs, o))
  {
    RestAllDone(rs, o, 0, |rs|);
    assert o[..|o|] == o;
  }

  /**
   * One step of putting runs in the order `o`: moving run `o[k]`, named by
   * its first op `b` and last op `e`, right after the last op `p` placed so
   * far gives the arrangement of `o[..k + 1]`, whose last placed op is `e`.
   */
  lemma MoveNextRun(prefix: seq<Op>, rs: seq<seq<Op>>, o: seq<nat>, k: nat, s: seq<Op>, b: nat, e: nat, p: nat)
    requires prefix != [] && k < |o| && Below(o, |rs|) && o[k] !in o[..k] && rs[o[k]] != []
    requires s == Arranged(prefix, rs, o, k) && Distinct(s)
    requires b == rs[o[k]][0].id && e == Last(rs[o[k]]).id && p == Last(Front(prefix, rs, o, k)).id
    ensures b in Ids(s) && e in Ids(s) && p in Ids(s)
    ensures IndexOf(s, b) <= IndexOf(s, e) && !(IndexOf(s, b) <= IndexOf(s, p) <= IndexOf(s, e))
    ensures MoveAfter(s, IndexOf(s, b), IndexOf(s, e), IndexOf(s, p)) == Arranged(prefix, rs, o, k + 1)
    ensures Last(Front(prefix, rs, o, k + 1)).id == e
  {
    var x := o[k];
    assert o[..k + 1] == o[..k] + [x];
    GatherSnoc(rs, o, k);
    RestWithout(rs, o[..k], x);
    RestAround(rs, o[..k], x);
    var G := Flatten(Gather(rs, o[..k]));
    var P := prefix + G;
    var R1, R2 := Rest(rs, o[..k], 0, x), Rest(rs, o[..k], x + 1, |rs|);
    Regroup3(P, R1, rs[x], R2);
    assert s == P + R1 + rs[x] + R2;
    MoveAfterShape(P, R1, rs[x], R2, s, b, e, p);
    Regroup(prefix, G, rs[x]);
    assert P + rs[x] == Front(prefix, rs, o, k + 1);
    assert R1 + R2 == Rest(rs, o[..k + 1], 0, |rs|);
    Regroup2(P, rs[x], R1, R2);
    LastAppend(P, rs[x]);
  }

  /**
   * The op list of one translation. `nextId` is the identity the next
   * emitted op receives; every identity in the list is below it.
   */
  class Log {
    var ops: seq<Op>
    var nextId: nat

    ghost predicate Valid()
      reads this
    {
      Distinct(ops) && nextId > 0 && forall k :: 0 <= k < |ops| ==> 0 < ops[k].id < nextId
    }

    constructor ()
      ensures Valid() && ops == [] && nextId == 1
    {
      ops := [];
      nextId := 1;
    }

    /** `tcg_last_op()`: the last op, or NULL (0) on an empty list. */
    function LastOp(): (id: nat)
      reads this
      requires Valid()
      ensures id == 0 <==> ops == []
      ensures ops != [] ==> id == Last(ops).id
    {
      if ops == [] then 0 else ops[|ops| - 1].id
    }

    /** Appends one op of the given kind. */
    method Emit(kind: OpKind)
      requires Valid()
      modifies this
      ensures Valid()
      ensures ops == old(ops) + [Op(old(nextId), kind)] && nextId == old(nextId) + 1
    {
      ghost var before := ops;
      ops := ops + [Op(nextId, kind)];
      forall a, b | 0 <= a < b < |ops| ensures IdAt(ops, a) != IdAt(ops, b) {
        if b < |before| {
          assert IdAt(before, a) != IdAt(before, b);
        }
      }
      nextId := nextId + 1;
    }

    /** Appends ops of the given kinds, in order. */
    method EmitAll(kinds: seq<OpKind>)
      requires Valid()
      modifies this
      ensures Valid()
      ensures ops == old(ops) + Fresh(kinds, old(nextId)) && nextId == old(nextId) + |kinds|
    {
      var k := 0;
      while k < |kinds|
        invariant 0 <= k <= |kinds| && Valid()
        invariant ops == old(ops) + Fresh(kinds[..k], old(nextId)) && nextId == old(nextId) + k
      {
        Emit(kinds[k]);
        assert Fresh(kinds[..k + 1], old(nextId)) == Fresh(kinds[..k], old(nextId)) + [Op(old(nextId) + k, kinds[k])];
        k := k + 1;
      }
      assert kinds[..k] == kinds;
    }

    /**
     * `tcg_op_move_range_after(b, e, p)`: the run from the op `b` to the op
     * `e` is put right after the op `p`.
     */
    method MoveRangeAfter(b: nat, e: nat, p: nat)
      requires Valid()
      requires b in Ids(ops) && e in Ids(ops) && p in Ids(ops)
      requires IndexOf(ops, b) <= IndexOf(ops, e)
      requires !(IndexOf(ops, b) <= IndexOf(ops, p) <= IndexOf(ops, e))
      modifies this
      ensures Valid() && nextId == old(nextId)
      ensures ops == MoveAfter(old(ops), IndexOf(old(ops), b), IndexOf(old(ops), e), IndexOf(old(ops), p))
    {
      var lo, hi, at := IndexOf(ops, b), IndexOf(ops, e), IndexOf(ops, p);
      MoveAfterPermutes(ops, lo, hi, at);
      var moved := MoveAfter(ops, lo, hi, at);
      forall k | 0 <= k < |moved| ensures 0 < moved[k].id < nextId {
        assert moved[k] in moved;
      }
      ops := moved;
    }
  }
}
