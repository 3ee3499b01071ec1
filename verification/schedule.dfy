/** The pass structure of the leveled service scheduler, shared by all
    variants. Which entities a scan builds, how the running `max_level`
    grows and which entries are popped after the scan depend only on the
    service flags, never on what a build returns; so the loop is modelled
    here as a list of passes, and each variant folds its own build step over
    that list. */
module Schedule {
  import opened Wrappers
  import opened Dicts
  import opened Config

  /** The entry `k` of `conf` is picked up by the scheduler. */
  predicate Scheduled(schema: Schema, conf: Conf, k: string) {
    k in conf.items && ServiceLevel(schema, conf.items[k]).Some?
  }

  function LevelOf(schema: Schema, conf: Conf, k: string): int
    requires Scheduled(schema, conf, k)
  {
    ServiceLevel(schema, conf.items[k]).value
  }

  /** The pass that builds a service of level `l`: levels below 0 are
      built in the first pass. */
  function PassOf(l: int): nat {
    if l < 0 then 0 else l
  }

  /** The running maximum of one scan: `max_level` is raised to every
      larger level met among `keys`. */
  function ScanMax(schema: Schema, keys: seq<string>, conf: Conf, m: int): int
    decreases |keys|
  {
    if keys == [] then m
    else
      var k := keys[0];
      var m' := if Scheduled(schema, conf, k) && LevelOf(schema, conf, k) > m then LevelOf(schema, conf, k) else m;
      ScanMax(schema, keys[1..], conf, m')
  }

  lemma {:induction false} ScanMaxUpper(schema: Schema, keys: seq<string>, conf: Conf, m: int)
    ensures m <= ScanMax(schema, keys, conf, m)
    ensures forall k | k in keys && Scheduled(schema, conf, k) :: LevelOf(schema, conf, k) <= ScanMax(schema, keys, conf, m)
    decreases |keys|
  {
    if keys != [] {
      var k := keys[0];
      var m' := if Scheduled(schema, conf, k) && LevelOf(schema, conf, k) > m then LevelOf(schema, conf, k) else m;
      ScanMaxUpper(schema, keys[1..], conf, m');
      forall x | x in keys && Scheduled(schema, conf, x)
        ensures LevelOf(schema, conf, x) <= ScanMax(schema, keys, conf, m)
      {
        if x != k {
          assert x in keys[1..];
        }
      }
    }
  }

  lemma {:induction false} ScanMaxFixed(schema: Schema, keys: seq<string>, conf: Conf, m: int)
    requires forall k | k in keys && Scheduled(schema, conf, k) :: LevelOf(schema, conf, k) <= m
    ensures ScanMax(schema, keys, conf, m) == m
    decreases |keys|
  {
    if keys != [] {
      ScanMaxFixed(schema, keys[1..], conf, m);
    }
  }

  /** The keys one scan at `level` builds: scheduled entries whose level is
      at most `level`, in document order. */
  function DueIn(schema: Schema, conf: Conf, level: nat): seq<string> {
    Filter(conf.keys, k => Scheduled(schema, conf, k) && LevelOf(schema, conf, k) <= level)
  }

  /** One scan of the scheduler's loop: its level, the keys it builds in
      the order it builds them, and the document it builds them against. */
  datatype Pass = Pass(level: nat, due: seq<string>, conf: Conf)

  /** The scheduler's loop from `level` on: scan (raising `max_level`,
      collecting the due keys), pop the due keys, go to the next level, and
      stop once `level` exceeds `max_level`. Returns the passes and the
      document that remains. */
  function Passes(schema: Schema, level: nat, maxLevel: int, conf: Conf): (seq<Pass>, Conf)
    decreases ScanMax(schema, conf.keys, conf, maxLevel) + 1 - level
  {
    if level > maxLevel then ([], conf)
    else
      var m' := ScanMax(schema, conf.keys, conf, maxLevel);
      var due := DueIn(schema, conf, level);
      var next := Without(conf, Elems(due));
      ScanMaxUpper(schema, conf.keys, conf, maxLevel);
      ScanMaxFixed(schema, next.keys, next, m');
      var rest := Passes(schema, level + 1, m', next);
      ([Pass(level, due, conf)] + rest.0, rest.1)
  }

  /** The whole scheduler loop, from `level = max_level = 0`. */
  function Plan(schema: Schema, conf: Conf): (seq<Pass>, Conf) {
    Passes(schema, 0, 0, conf)
  }

  /** The keys built by a list of passes, in build order. */
  function Order(ps: seq<Pass>): seq<string> {
    if ps == [] then [] else ps[0].due + Order(ps[1..])
  }

  /** Keys registered before the passes, then the first pass's: a prefix of
      the keys registered before them, then all the passes'. */
  lemma OrderCons(keys: seq<string>, ps: seq<Pass>)
    requires ps != []
    ensures keys + Order(ps) == (keys + ps[0].due) + Order(ps[1..])
    ensures Distinct(keys + Order(ps)) ==> Distinct(keys + ps[0].due)
  {
    assert keys + Order(ps) == (keys + ps[0].due) + Order(ps[1..]);
    if Distinct(keys + Order(ps)) {
      DistinctPrefix(keys + ps[0].due, Order(ps[1..]));
    }
  }

  // ---------------------------------------------------------------------
  // The reference schedule: one pass per level 0..Top, pass i building
  // exactly the services whose level (clamped at 0) is i, in document
  // order, against the document without the services of earlier passes.
  // ---------------------------------------------------------------------

  /** The highest level the scheduler reaches. */
  function Top(schema: Schema, c0: Conf): nat {
    ScanMaxUpper(schema, c0.keys, c0, 0);
    ScanMax(schema, c0.keys, c0, 0)
  }

  /** The services built before pass `i`. */
  function Popped(schema: Schema, c0: Conf, i: nat): set<string> {
    set k | k in c0.items && Scheduled(schema, c0, k) && PassOf(LevelOf(schema, c0, k)) < i
  }

  /** The document as pass `i` sees it. */
  function Snapshot(schema: Schema, c0: Conf, i: nat): Conf {
    Without(c0, Popped(schema, c0, i))
  }

  /** The services of pass `i`, in document order. */
  function AtLevel(schema: Schema, c0: Conf, i: nat): seq<string> {
    Filter(c0.keys, k => Scheduled(schema, c0, k) && PassOf(LevelOf(schema, c0, k)) == i)
  }

  function Levels(schema: Schema, c0: Conf, i: nat): seq<Pass>
    decreases Top(schema, c0) + 1 - i
  {
    if i > Top(schema, c0) then []
    else [LevelPass(schema, c0, i)] + Levels(schema, c0, i + 1)
  }

  /** Pass `i` of the reference schedule: the services at level `i`, seen
      in the document without the services of the earlier passes. */
  function LevelPass(schema: Schema, c0: Conf, i: nat): Pass {
    Pass(i, AtLevel(schema, c0, i), Snapshot(schema, c0, i))
  }

  /** The set of scheduled entries. */
  function ServiceKeys(schema: Schema, c0: Conf): set<string> {
    set k | k in c0.items && Scheduled(schema, c0, k)
  }

  lemma {:induction false} FilterAll(s: seq<string>, p: string -> bool)
    requires forall x :: x in s ==> p(x)
    ensures Filter(s, p) == s
  {
    if s != [] {
      FilterAll(s[1..], p);
      assert [s[0]] + s[1..] == s;
    }
  }

  lemma SnapshotZero(schema: Schema, c0: Conf)
    ensures Snapshot(schema, c0, 0) == c0
  {
    assert Popped(schema, c0, 0) == {};
    FilterAll(c0.keys, k => k !in Popped(schema, c0, 0));
  }

  /** The due keys of the loop's scan at `i`, over the snapshot of pass `i`,
      are the services of level `i`. */
  lemma DueIsAtLevel(schema: Schema, c0: Conf, i: nat)
    ensures DueIn(schema, Snapshot(schema, c0, i), i) == AtLevel(schema, c0, i)
  {
    var popped := Popped(schema, c0, i);
    var snap := Snapshot(schema, c0, i);
    var p := k => k !in popped;
    var q := k => Scheduled(schema, snap, k) && LevelOf(schema, snap, k) <= i;
    var pq := k => Scheduled(schema, c0, k) && PassOf(LevelOf(schema, c0, k)) == i;
    forall x | x in c0.keys ensures pq(x) == (p(x) && q(x)) {
      assert x in c0.items;
      if x !in popped {
        assert snap.items[x] == c0.items[x];
      }
    }
    FilterTwice(c0.keys, p, q, pq);
  }

  lemma PoppedStep(schema: Schema, c0: Conf, i: nat)
    ensures Popped(schema, c0, i + 1) == Popped(schema, c0, i) + Elems(AtLevel(schema, c0, i))
  {
    var at := AtLevel(schema, c0, i);
    forall x ensures x in Popped(schema, c0, i + 1) <==> x in Popped(schema, c0, i) || x in at {
    }
  }

  /** Popping the due keys of pass `i` gives the snapshot of pass `i + 1`. */
  lemma SnapshotStep(schema: Schema, c0: Conf, i: nat)
    ensures Without(Snapshot(schema, c0, i), Elems(AtLevel(schema, c0, i))) == Snapshot(schema, c0, i + 1)
  {
    var popped := Popped(schema, c0, i);
    var due := Elems(AtLevel(schema, c0, i));
    var popped' := Popped(schema, c0, i + 1);
    PoppedStep(schema, c0, i);
    var snap := Snapshot(schema, c0, i);
    var lhs := Without(snap, due);
    var rhs := Snapshot(schema, c0, i + 1);
    assert lhs.keys == rhs.keys by {
      var p := k => k !in popped;
      var q := k => k !in due;
      var pq := k => k !in popped';
      FilterTwice(c0.keys, p, q, pq);
    }
    assert lhs.items == rhs.items;
  }

  /** Levels of entries in a snapshot are levels in the original document. */
  lemma SnapshotBelowTop(schema: Schema, c0: Conf, i: nat)
    ensures forall k | k in Snapshot(schema, c0, i).keys && Scheduled(schema, Snapshot(schema, c0, i), k) ::
      LevelOf(schema, Snapshot(schema, c0, i), k) <= Top(schema, c0)
  {
    ScanMaxUpper(schema, c0.keys, c0, 0);
  }

  /** One step of the loop, unfolded. */
  lemma PassesStep(schema: Schema, level: nat, maxLevel: int, conf: Conf)
    requires level <= maxLevel
    ensures
      var rest := Passes(schema, level + 1, ScanMax(schema, conf.keys, conf, maxLevel),
                         Without(conf, Elems(DueIn(schema, conf, level))));
      Passes(schema, level, maxLevel, conf) == ([Pass(level, DueIn(schema, conf, level), conf)] + rest.0, rest.1)
  {
  }

  lemma {:induction false} PassesFrom(schema: Schema, c0: Conf, i: nat, maxLevel: int)
    requires i <= Top(schema, c0) + 1
    requires (i == 0 && maxLevel == 0) || (i >= 1 && maxLevel == Top(schema, c0))
    ensures Passes(schema, i, maxLevel, Snapshot(schema, c0, i)) ==
      (Levels(schema, c0, i), Snapshot(schema, c0, Top(schema, c0) + 1))
    decreases Top(schema, c0) + 1 - i
  {
    if i <= Top(schema, c0) {
      PassesFrom(schema, c0, i + 1, Top(schema, c0));
      PassesFromStep(schema, c0, i, maxLevel);
    } else {
      PassesFromEnd(schema, c0, i, maxLevel);
    }
  }

  lemma PassesFromEnd(schema: Schema, c0: Conf, i: nat, maxLevel: int)
    requires i == Top(schema, c0) + 1
    requires maxLevel == Top(schema, c0)
    ensures Passes(schema, i, maxLevel, Snapshot(schema, c0, i)) ==
      (Levels(schema, c0, i), Snapshot(schema, c0, Top(schema, c0) + 1))
  {
  }

  /** Pass `i` of the loop is the reference pass `i`, and the loop goes on
      from the snapshot of pass `i + 1` with `max_level` at its final value. */
  lemma PassesFromStep(schema: Schema, c0: Conf, i: nat, maxLevel: int)
    requires i <= Top(schema, c0)
    requires (i == 0 && maxLevel == 0) || (i >= 1 && maxLevel == Top(schema, c0))
    requires Passes(schema, i + 1, Top(schema, c0), Snapshot(schema, c0, i + 1)) ==
      (Levels(schema, c0, i + 1), Snapshot(schema, c0, Top(schema, c0) + 1))
    ensures Passes(schema, i, maxLevel, Snapshot(schema, c0, i)) ==
      (Levels(schema, c0, i), Snapshot(schema, c0, Top(schema, c0) + 1))
  {
    LoopPassAt(schema, c0, i, maxLevel);
    LevelsStep(schema, c0, i);
  }

  /** Pass `i` of the loop, started from the snapshot of pass `i`. */
  lemma LoopPassAt(schema: Schema, c0: Conf, i: nat, maxLevel: int)
    requires i <= Top(schema, c0)
    requires (i == 0 && maxLevel == 0) || (i >= 1 && maxLevel == Top(schema, c0))
    ensures var rest := Passes(schema, i + 1, Top(schema, c0), Snapshot(schema, c0, i + 1));
      Passes(schema, i, maxLevel, Snapshot(schema, c0, i)) ==
        ([Pass(i, AtLevel(schema, c0, i), Snapshot(schema, c0, i))] + rest.0, rest.1)
  {
    var snap := Snapshot(schema, c0, i);
    MaxIsTop(schema, c0, i, maxLevel);
    DueIsAtLevel(schema, c0, i);
    SnapshotStep(schema, c0, i);
    PassesStep(schema, i, maxLevel, snap);
  }

  /** The reference schedule from level `i` on, one level unfolded. */
  lemma LevelsStep(schema: Schema, c0: Conf, i: nat)
    requires i <= Top(schema, c0)
    ensures Levels(schema, c0, i) == [Pass(i, AtLevel(schema, c0, i), Snapshot(schema, c0, i))] + Levels(schema, c0, i + 1)
  {
  }

  /** The scan of pass `i` leaves `max_level` at the highest level. */
  lemma MaxIsTop(schema: Schema, c0: Conf, i: nat, maxLevel: int)
    requires (i == 0 && maxLevel == 0) || (i >= 1 && maxLevel == Top(schema, c0))
    ensures ScanMax(schema, Snapshot(schema, c0, i).keys, Snapshot(schema, c0, i), maxLevel) == Top(schema, c0)
  {
    var snap := Snapshot(schema, c0, i);
    if i == 0 {
      SnapshotZero(schema, c0);
    } else {
      SnapshotBelowTop(schema, c0, i);
      ScanMaxFixed(schema, snap.keys, snap, maxLevel);
    }
  }

  /** The scheduler's loop, with its running maximum and pops, is exactly
      the reference schedule: one pass per level from 0 to the highest
      declared level. */
  lemma PlanIsLevels(schema: Schema, c0: Conf)
    ensures Plan(schema, c0) == (Levels(schema, c0, 0), Snapshot(schema, c0, Top(schema, c0) + 1))
  {
    ScanMaxUpper(schema, c0.keys, c0, 0);
    SnapshotZero(schema, c0);
    PassesFrom(schema, c0, 0, 0);
  }

  /** Every scheduled entry's pass is at most the highest level. */
  lemma PassBelowTop(schema: Schema, c0: Conf, k: string)
    requires Scheduled(schema, c0, k)
    ensures PassOf(LevelOf(schema, c0, k)) <= Top(schema, c0)
  {
    ScanMaxUpper(schema, c0.keys, c0, 0);
    assert k in c0.keys;
  }

  lemma ConsAt<T>(s: seq<T>, x: T, tail: seq<T>, j: nat)
    requires s == [x] + tail && 0 < j < |s|
    ensures s[j] == tail[j - 1]
  {
  }

  /** There is one pass per level, from `i` up to the highest. */
  lemma {:induction false} LevelsLength(schema: Schema, c0: Conf, i: nat)
    ensures |Levels(schema, c0, i)| == if i > Top(schema, c0) then 0 else Top(schema, c0) + 1 - i
    decreases Top(schema, c0) + 1 - i
  {
    if i <= Top(schema, c0) {
      LevelsLength(schema, c0, i + 1);
    }
  }

  /** Pass `j` of the reference schedule from `i` is the pass of level `i + j`. */
  lemma {:induction false} LevelsShape(schema: Schema, c0: Conf, i: nat, j: nat)
    requires j < |Levels(schema, c0, i)|
    ensures Levels(schema, c0, i)[j].level == i + j
    ensures Levels(schema, c0, i)[j] == LevelPass(schema, c0, Levels(schema, c0, i)[j].level)
    decreases j
  {
    var ls, tail := Levels(schema, c0, i), Levels(schema, c0, i + 1);
    assert ls == [LevelPass(schema, c0, i)] + tail;
    if j > 0 {
      LevelsShape(schema, c0, i + 1, j - 1);
      ConsAt(ls, LevelPass(schema, c0, i), tail, j);
    }
  }

  /** The keys built by the passes from `i` on are exactly the services of
      pass `i` or later. */
  lemma {:induction false} OrderMembers(schema: Schema, c0: Conf, i: nat)
    ensures forall k :: k in Order(Levels(schema, c0, i)) <==>
      Scheduled(schema, c0, k) && PassOf(LevelOf(schema, c0, k)) >= i
    decreases Top(schema, c0) + 1 - i
  {
    if i <= Top(schema, c0) {
      OrderMembers(schema, c0, i + 1);
      var ls := Levels(schema, c0, i);
      assert ls[1..] == Levels(schema, c0, i + 1);
      assert Order(ls) == AtLevel(schema, c0, i) + Order(Levels(schema, c0, i + 1));
    } else {
      forall k | Scheduled(schema, c0, k) ensures PassOf(LevelOf(schema, c0, k)) < i {
        PassBelowTop(schema, c0, k);
      }
    }
  }

  /** No key is built twice. */
  lemma {:induction false} OrderDistinct(schema: Schema, c0: Conf, i: nat)
    ensures Distinct(Order(Levels(schema, c0, i)))
    decreases Top(schema, c0) + 1 - i
  {
    if i <= Top(schema, c0) {
      OrderDistinct(schema, c0, i + 1);
      OrderMembers(schema, c0, i + 1);
      var at := AtLevel(schema, c0, i);
      var rest := Order(Levels(schema, c0, i + 1));
      FilterDistinct(c0.keys, k => Scheduled(schema, c0, k) && PassOf(LevelOf(schema, c0, k)) == i);
      assert Levels(schema, c0, i)[1..] == Levels(schema, c0, i + 1);
      DistinctAppend(at, rest);
    }
  }

  lemma DistinctAppend<T>(a: seq<T>, b: seq<T>)
    requires Distinct(a) && Distinct(b)
    requires forall x | x in a :: x !in b
    ensures Distinct(a + b)
  {
    forall i, j | 0 <= i < j < |a + b| ensures (a + b)[i] != (a + b)[j] {
      if i < |a| <= j {
        assert (a + b)[i] in a && (a + b)[j] in b;
      }
    }
  }

  /** Pass `j` of the reference schedule. */
  lemma LevelAt(schema: Schema, c0: Conf, j: nat)
    requires j < |Levels(schema, c0, 0)|
    ensures Levels(schema, c0, 0)[j] == Pass(j, AtLevel(schema, c0, j), Snapshot(schema, c0, j))
  {
    LevelsShape(schema, c0, 0, j);
    assert Levels(schema, c0, 0)[j].level == j;
  }

  /** Every pass builds exactly the services whose level (clamped at 0) is
      its own, in document order; so the build order is sorted by level. */
  lemma PassContents(schema: Schema, c0: Conf, j: nat)
    requires j < |Levels(schema, c0, 0)|
    ensures forall k :: k in Levels(schema, c0, 0)[j].due <==>
      Scheduled(schema, c0, k) && PassOf(LevelOf(schema, c0, k)) == j
    ensures Levels(schema, c0, 0)[j].due == AtLevel(schema, c0, j)
  {
    LevelAt(schema, c0, j);
  }

  /** What the scheduler leaves behind is the document without its services. */
  lemma RemainderIsNonServices(schema: Schema, c0: Conf)
    ensures Snapshot(schema, c0, Top(schema, c0) + 1).items == c0.items - ServiceKeys(schema, c0)
    ensures forall k :: k in Snapshot(schema, c0, Top(schema, c0) + 1).keys <==>
      k in c0.keys && !Scheduled(schema, c0, k)
  {
    forall k | Scheduled(schema, c0, k) ensures PassOf(LevelOf(schema, c0, k)) < Top(schema, c0) + 1 {
      PassBelowTop(schema, c0, k);
    }
    assert Popped(schema, c0, Top(schema, c0) + 1) == ServiceKeys(schema, c0);
  }

  /** The scheduler hands every service to its builder in exactly one pass,
      and hands it nothing else. */
  lemma PlanBuildsServices(schema: Schema, c0: Conf)
    ensures Distinct(Order(Plan(schema, c0).0))
    ensures forall k :: k in Order(Plan(schema, c0).0) <==> k in ServiceKeys(schema, c0)
  {
    PlanIsLevels(schema, c0);
    OrderDistinct(schema, c0, 0);
    OrderMembers(schema, c0, 0);
  }

  /** A pass sees the entries it builds exactly as the original document
      has them: nothing it builds was popped before it. */
  lemma PassSeesOwnEntries(schema: Schema, c0: Conf)
    ensures forall j | 0 <= j < |Levels(schema, c0, 0)| ::
      forall k | k in Levels(schema, c0, 0)[j].due ::
        k in Levels(schema, c0, 0)[j].conf.items && k in c0.items && Levels(schema, c0, 0)[j].conf.items[k] == c0.items[k]
  {
    forall j | 0 <= j < |Levels(schema, c0, 0)|
      ensures forall k | k in Levels(schema, c0, 0)[j].due ::
        k in Levels(schema, c0, 0)[j].conf.items && k in c0.items && Levels(schema, c0, 0)[j].conf.items[k] == c0.items[k]
    {
      LevelAt(schema, c0, j);
    }
  }

  /** `o` lists scheduled entries in non-decreasing pass order. */
  ghost predicate SortedByPass(schema: Schema, c0: Conf, o: seq<string>) {
    (forall k | k in o :: Scheduled(schema, c0, k)) &&
    forall a, b | 0 <= a < b < |o| :: PassOf(LevelOf(schema, c0, o[a])) <= PassOf(LevelOf(schema, c0, o[b]))
  }

  lemma SortedAppend(schema: Schema, c0: Conf, at: seq<string>, rest: seq<string>, i: nat)
    requires forall k | k in at :: Scheduled(schema, c0, k) && PassOf(LevelOf(schema, c0, k)) == i
    requires forall k | k in rest :: Scheduled(schema, c0, k) && PassOf(LevelOf(schema, c0, k)) > i
    requires SortedByPass(schema, c0, rest)
    ensures SortedByPass(schema, c0, at + rest)
  {
    var o := at + rest;
    forall a, b | 0 <= a < b < |o| ensures PassOf(LevelOf(schema, c0, o[a])) <= PassOf(LevelOf(schema, c0, o[b])) {
      if b < |at| {
        assert o[a] == at[a] && o[b] == at[b];
      } else if a < |at| {
        assert o[a] == at[a] && o[b] == rest[b - |at|];
      } else {
        assert o[a] == rest[a - |at|] && o[b] == rest[b - |at|];
      }
    }
  }

  /** The build order is sorted by pass: a service never follows one of a
      later pass. */
  lemma {:induction false} OrderSorted(schema: Schema, c0: Conf, i: nat)
    ensures SortedByPass(schema, c0, Order(Levels(schema, c0, i)))
    decreases Top(schema, c0) + 1 - i
  {
    if i <= Top(schema, c0) {
      OrderSorted(schema, c0, i + 1);
      OrderMembers(schema, c0, i + 1);
      var at := AtLevel(schema, c0, i);
      var rest := Order(Levels(schema, c0, i + 1));
      assert Levels(schema, c0, i)[1..] == Levels(schema, c0, i + 1);
      assert Order(Levels(schema, c0, i)) == at + rest;
      SortedAppend(schema, c0, at, rest, i);
    }
  }
}
