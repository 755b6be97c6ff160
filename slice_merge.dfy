/**
 * The merge-on-read reconciliation of one file slice, stated on values: what the
 * reader emits for a base-file cursor `base` and the scanner's pending log records
 * `pending`, and the properties of that output.
 */
module SliceMerge {
  import opened Wrappers
  import opened Collaborators

  /** Where an emitted record comes from: the base record at `pos` (merged with a log record or not), or the tail. */
  datatype Origin = FromBase(pos: nat, merged: bool) | FromLogOnly

  /** One emission: the key it was produced for, its origin, and the record or the error raised. */
  datatype Emission<R> = Emission(key: Key, origin: Origin, value: Result<R, ReadError>)

  /** One call of the merger, made while processing the base record at `pos`. */
  datatype MergeCall<R> = MergeCall(pos: nat, older: R, newer: R, result: Option<R>)

  /** The pending log records left after the first `n` base records have been looked up. */
  function Pending<R>(c: Context<R>, base: seq<R>, pending: map<Key, R>, n: nat): (m: map<Key, R>)
    requires n <= |base|
    ensures m.Keys <= pending.Keys
    ensures forall k :: k in m ==> m[k] == pending[k]
    decreases n
  {
    if n == 0 then pending else Pending(c, base, pending, n - 1) - {c.keyOf(base[n - 1])}
  }

  /** The keys of the first `n` base records. */
  function BaseKeys<R>(c: Context<R>, base: seq<R>, n: nat): set<Key>
    requires n <= |base|
  {
    set p | 0 <= p < n :: c.keyOf(base[p])
  }

  /** The base record at `p` finds a pending log record and the merger answers absence. */
  predicate Deleted<R>(c: Context<R>, base: seq<R>, pending: map<Key, R>, p: nat)
    requires p < |base|
  {
    var m := Pending(c, base, pending, p);
    var k := c.keyOf(base[p]);
    k in m && c.merge(base[p], m[k], c.props).None?
  }

  /** The keys of the base records among the first `n` that are deleted. */
  function DeletedKeys<R>(c: Context<R>, base: seq<R>, pending: map<Key, R>, n: nat): set<Key>
    requires n <= |base|
  {
    set p | 0 <= p < n && Deleted(c, base, pending, p) :: c.keyOf(base[p])
  }

  /** What processing the base record at `p` emits: pass-through, merge, or nothing. */
  function StepAt<R>(c: Context<R>, base: seq<R>, pending: map<Key, R>, p: nat): Option<Emission<R>>
    requires p < |base|
  {
    var m := Pending(c, base, pending, p);
    var k := c.keyOf(base[p]);
    if k !in m then Some(Emission(k, FromBase(p, false), Wrap(c, base[p])))
    else match c.merge(base[p], m[k], c.props)
      case None => None
      case Some(x) => Some(Emission(k, FromBase(p, true), Wrap(c, x)))
  }

  /** The merger call made while processing the base record at `p`, if any. */
  function CallAt<R>(c: Context<R>, base: seq<R>, pending: map<Key, R>, p: nat): Option<MergeCall<R>>
    requires p < |base|
  {
    var m := Pending(c, base, pending, p);
    var k := c.keyOf(base[p]);
    if k !in m then None else Some(MergeCall(p, base[p], m[k], c.merge(base[p], m[k], c.props)))
  }

  function AsSeq<T>(o: Option<T>): seq<T> {
    if o.Some? then [o.value] else []
  }

  /** The emissions of the base phase after the first `n` base records. */
  function BaseEmissions<R>(c: Context<R>, base: seq<R>, pending: map<Key, R>, n: nat): seq<Emission<R>>
    requires n <= |base|
    decreases n
  {
    if n == 0 then [] else BaseEmissions(c, base, pending, n - 1) + AsSeq(StepAt(c, base, pending, n - 1))
  }

  /** The merger calls of the base phase after the first `n` base records. */
  function BaseMergeCalls<R>(c: Context<R>, base: seq<R>, pending: map<Key, R>, n: nat): seq<MergeCall<R>>
    requires n <= |base|
    decreases n
  {
    if n == 0 then [] else BaseMergeCalls(c, base, pending, n - 1) + AsSeq(CallAt(c, base, pending, n - 1))
  }

  function KeySet<R>(s: seq<Emission<R>>): set<Key> {
    set i | 0 <= i < |s| :: s[i].key
  }

  /** The base positions that produced an emission in `s`. */
  function BasePositions<R>(s: seq<Emission<R>>): set<nat> {
    set i | 0 <= i < |s| && s[i].origin.FromBase? :: s[i].origin.pos
  }

  function CallPositions<R>(s: seq<MergeCall<R>>): set<nat> {
    set i | 0 <= i < |s| :: s[i].pos
  }

  ghost predicate DistinctKeys<R>(s: seq<Emission<R>>) {
    forall i, j :: 0 <= i < j < |s| ==> s[i].key != s[j].key
  }

  ghost predicate DistinctBaseKeys<R>(c: Context<R>, base: seq<R>) {
    forall i, j :: 0 <= i < j < |base| ==> c.keyOf(base[i]) != c.keyOf(base[j])
  }

  /** `tail` emits entries of `m` unchanged, each key at most once, in any order. */
  ghost predicate PartialDrain<R>(tail: seq<Emission<R>>, m: map<Key, R>) {
    && (forall i :: 0 <= i < |tail| ==>
          tail[i].origin == FromLogOnly && tail[i].key in m && tail[i].value == Ok(m[tail[i].key]))
    && DistinctKeys(tail)
  }

  /** `tail` emits every entry of `m` exactly once, unchanged, in any order. */
  ghost predicate Drain<R>(tail: seq<Emission<R>>, m: map<Key, R>) {
    PartialDrain(tail, m) && KeySet(tail) == m.Keys
  }

  /** Every emission of `s` is base-derived, with strictly increasing base positions. */
  ghost predicate InBaseOrder<R>(s: seq<Emission<R>>) {
    forall i, j :: 0 <= i < j < |s| ==> s[i].origin.FromBase? && s[j].origin.FromBase? && s[i].origin.pos < s[j].origin.pos
  }

  /** Base-derived emissions come first, in base-cursor order; tail emissions come last. */
  ghost predicate BaseFirstInBaseOrder<R>(s: seq<Emission<R>>) {
    forall i, j :: 0 <= i < j < |s| && s[j].origin.FromBase? ==>
      s[i].origin.FromBase? && s[i].origin.pos < s[j].origin.pos
  }

  // ---------------------------------------------------------------------------
  // Destructive lookup

  lemma {:induction false} PendingIsDifference<R>(c: Context<R>, base: seq<R>, pending: map<Key, R>, n: nat)
    requires n <= |base|
    ensures Pending(c, base, pending, n) == pending - BaseKeys(c, base, n)
  {
    if n > 0 {
      PendingIsDifference(c, base, pending, n - 1);
      assert BaseKeys(c, base, n) == BaseKeys(c, base, n - 1) + {c.keyOf(base[n - 1])};
    }
  }

  /**
   * The pending map only shrinks as the cursor advances, keeps the values it had, and
   * has lost every key of a base record already read, merged or deleted alike.
   */
  lemma PendingShrinks<R>(c: Context<R>, base: seq<R>, pending: map<Key, R>, i: nat, j: nat)
    requires i <= j <= |base|
    ensures Pending(c, base, pending, j).Keys <= Pending(c, base, pending, i).Keys
    ensures forall k :: k in Pending(c, base, pending, j) ==> Pending(c, base, pending, j)[k] == Pending(c, base, pending, i)[k]
    ensures forall p :: 0 <= p < j ==> c.keyOf(base[p]) !in Pending(c, base, pending, j)
  {
    PendingIsDifference(c, base, pending, i);
    PendingIsDifference(c, base, pending, j);
  }

  /** With distinct base keys, a base record finds exactly its key's entry of the original map. */
  lemma PendingAtOwnKey<R>(c: Context<R>, base: seq<R>, pending: map<Key, R>, p: nat)
    requires DistinctBaseKeys(c, base)
    requires p < |base|
    ensures c.keyOf(base[p]) in Pending(c, base, pending, p) <==> c.keyOf(base[p]) in pending
  {
    PendingIsDifference(c, base, pending, p);
  }

  // ---------------------------------------------------------------------------
  // The base phase

  lemma KeySetAppend<R>(s: seq<Emission<R>>, t: seq<Emission<R>>)
    ensures KeySet(s + t) == KeySet(s) + KeySet(t)
  {
    var u := s + t;
    forall k | k in KeySet(u) ensures k in KeySet(s) + KeySet(t) {
      var i :| 0 <= i < |u| && u[i].key == k;
      if i >= |s| { assert t[i - |s|].key == k; }
    }
    forall k | k in KeySet(s) + KeySet(t) ensures k in KeySet(u) {
      if k in KeySet(s) {
        var i :| 0 <= i < |s| && s[i].key == k;
        assert u[i].key == k;
      } else {
        var i :| 0 <= i < |t| && t[i].key == k;
        assert u[|s| + i].key == k;
      }
    }
  }

  /** One step of the base phase: it emits for its own key and position unless deleted, and calls the merger exactly when the key is pending. */
  lemma StepShape<R>(c: Context<R>, base: seq<R>, pending: map<Key, R>, p: nat)
    requires p < |base|
    ensures StepAt(c, base, pending, p).Some? <==> !Deleted(c, base, pending, p)
    ensures StepAt(c, base, pending, p).Some? ==>
      && StepAt(c, base, pending, p).value.key == c.keyOf(base[p])
      && StepAt(c, base, pending, p).value.origin.FromBase?
      && StepAt(c, base, pending, p).value.origin.pos == p
    ensures CallAt(c, base, pending, p).Some? <==> c.keyOf(base[p]) in Pending(c, base, pending, p)
    ensures CallAt(c, base, pending, p).Some? ==> CallAt(c, base, pending, p).value.pos == p
  {
  }

  /** Each base-phase emission is what its own base record's step produces. */
  lemma {:induction false} BaseEmissionsAreSteps<R>(c: Context<R>, base: seq<R>, pending: map<Key, R>, n: nat)
    requires n <= |base|
    ensures forall i :: 0 <= i < |BaseEmissions(c, base, pending, n)| ==>
      var e := BaseEmissions(c, base, pending, n)[i];
      e.origin.FromBase? && e.origin.pos < n && StepAt(c, base, pending, e.origin.pos) == Some(e)
  {
    if n > 0 {
      BaseEmissionsAreSteps(c, base, pending, n - 1);
      var prev := BaseEmissions(c, base, pending, n - 1);
      var s := StepAt(c, base, pending, n - 1);
      var e := BaseEmissions(c, base, pending, n);
      assert e == prev + AsSeq(s);
      forall i | 0 <= i < |e|
        ensures e[i].origin.FromBase? && e[i].origin.pos < n && StepAt(c, base, pending, e[i].origin.pos) == Some(e[i])
      {
        if i < |prev| { assert e[i] == prev[i]; } else { assert e[i] == s.value; }
      }
    }
  }

  /** The base-phase emissions after `n` records come from positions below `n`. */
  lemma BaseEmissionsBelow<R>(c: Context<R>, base: seq<R>, pending: map<Key, R>, n: nat)
    requires n <= |base|
    ensures forall i :: 0 <= i < |BaseEmissions(c, base, pending, n)| ==>
      BaseEmissions(c, base, pending, n)[i].origin.FromBase? && BaseEmissions(c, base, pending, n)[i].origin.pos < n
  {
    BaseEmissionsAreSteps(c, base, pending, n);
  }

  /** Appending at most one emission from position `bound` to base-ordered emissions from earlier positions keeps them base-ordered. */
  lemma InBaseOrderExtend<R>(prev: seq<Emission<R>>, t: seq<Emission<R>>, bound: nat)
    requires InBaseOrder(prev)
    requires forall i :: 0 <= i < |prev| ==> prev[i].origin.FromBase? && prev[i].origin.pos < bound
    requires |t| <= 1
    requires forall i :: 0 <= i < |t| ==> t[i].origin.FromBase? && t[i].origin.pos == bound
    ensures InBaseOrder(prev + t)
  {
    var e := prev + t;
    forall i, j | 0 <= i < j < |e| ensures e[i].origin.FromBase? && e[j].origin.FromBase? && e[i].origin.pos < e[j].origin.pos {
      assert e[i] == prev[i];
      if j < |prev| {
        assert e[j] == prev[j];
      } else {
        assert e[j] == t[0];
      }
    }
  }

  /** Base-phase emissions follow base-cursor order, strictly. */
  lemma {:induction false} BaseEmissionsInOrder<R>(c: Context<R>, base: seq<R>, pending: map<Key, R>, n: nat)
    requires n <= |base|
    ensures InBaseOrder(BaseEmissions(c, base, pending, n))
  {
    if n > 0 {
      BaseEmissionsInOrder(c, base, pending, n - 1);
      BaseEmissionsBelow(c, base, pending, n - 1);
      StepShape(c, base, pending, n - 1);
      var s := StepAt(c, base, pending, n - 1);
      assert s.Some? ==> AsSeq(s) == [s.value];
      InBaseOrderExtend(BaseEmissions(c, base, pending, n - 1), AsSeq(s), n - 1);
    }
  }

  /** Every base position whose step emits is a position of the base-phase emissions. */
  lemma {:induction false} StepsAreEmitted<R>(c: Context<R>, base: seq<R>, pending: map<Key, R>, n: nat)
    requires n <= |base|
    ensures forall p :: 0 <= p < n && StepAt(c, base, pending, p).Some? ==> p in BasePositions(BaseEmissions(c, base, pending, n))
  {
    if n > 0 {
      StepsAreEmitted(c, base, pending, n - 1);
      var prev := BaseEmissions(c, base, pending, n - 1);
      var s := StepAt(c, base, pending, n - 1);
      var e := BaseEmissions(c, base, pending, n);
      assert e == prev + AsSeq(s);
      forall p | 0 <= p < n && StepAt(c, base, pending, p).Some? ensures p in BasePositions(e) {
        if p < n - 1 {
          assert p in BasePositions(prev);
          var i :| 0 <= i < |prev| && prev[i].origin.FromBase? && prev[i].origin.pos == p;
          assert e[i] == prev[i];
        } else {
          StepShape(c, base, pending, p);
          assert e[|prev|] == s.value;
        }
      }
    }
  }

  /** A base position is emitted exactly when its step emits. */
  lemma BaseEmissionPositions<R>(c: Context<R>, base: seq<R>, pending: map<Key, R>, n: nat)
    requires n <= |base|
    ensures BasePositions(BaseEmissions(c, base, pending, n)) == set p | 0 <= p < n && StepAt(c, base, pending, p).Some?
  {
    var e := BaseEmissions(c, base, pending, n);
    BaseEmissionsAreSteps(c, base, pending, n);
    StepsAreEmitted(c, base, pending, n);
    forall p | p in BasePositions(e) ensures 0 <= p < n && StepAt(c, base, pending, p).Some? {
      var i :| 0 <= i < |e| && e[i].origin.FromBase? && e[i].origin.pos == p;
      assert StepAt(c, base, pending, p) == Some(e[i]);
    }
  }

  lemma BaseKeysStep<R>(c: Context<R>, base: seq<R>, n: nat)
    requires 0 < n <= |base|
    ensures BaseKeys(c, base, n) == BaseKeys(c, base, n - 1) + {c.keyOf(base[n - 1])}
  {
  }

  /** Every key deleted among the first `n` records is deleted among the first `n - 1` or is the last one's. */
  lemma DeletedKeysStepSub<R>(c: Context<R>, base: seq<R>, pending: map<Key, R>, n: nat)
    requires 0 < n <= |base|
    ensures DeletedKeys(c, base, pending, n) <=
      DeletedKeys(c, base, pending, n - 1) + (if Deleted(c, base, pending, n - 1) then {c.keyOf(base[n - 1])} else {})
  {
    var before := DeletedKeys(c, base, pending, n - 1);
    var extra: set<Key> := if Deleted(c, base, pending, n - 1) then {c.keyOf(base[n - 1])} else {};
    forall k | k in DeletedKeys(c, base, pending, n) ensures k in before + extra {
      var p :| 0 <= p < n && Deleted(c, base, pending, p) && c.keyOf(base[p]) == k;
      if p < n - 1 {
        assert k in before;
      } else {
        assert k in extra;
      }
    }
  }

  /** The keys deleted among the first `n - 1` records, and the last one's when deleted, are deleted among the first `n`. */
  lemma DeletedKeysStepSup<R>(c: Context<R>, base: seq<R>, pending: map<Key, R>, n: nat)
    requires 0 < n <= |base|
    ensures DeletedKeys(c, base, pending, n - 1) + (if Deleted(c, base, pending, n - 1) then {c.keyOf(base[n - 1])} else {})
      <= DeletedKeys(c, base, pending, n)
  {
    forall k | k in DeletedKeys(c, base, pending, n - 1) ensures k in DeletedKeys(c, base, pending, n) {
      var p :| 0 <= p < n - 1 && Deleted(c, base, pending, p) && c.keyOf(base[p]) == k;
    }
  }

  lemma DeletedKeysStep<R>(c: Context<R>, base: seq<R>, pending: map<Key, R>, n: nat)
    requires 0 < n <= |base|
    ensures DeletedKeys(c, base, pending, n) ==
      DeletedKeys(c, base, pending, n - 1) + (if Deleted(c, base, pending, n - 1) then {c.keyOf(base[n - 1])} else {})
  {
    DeletedKeysStepSub(c, base, pending, n);
    DeletedKeysStepSup(c, base, pending, n);
  }

  lemma DeletedKeysAreBaseKeys<R>(c: Context<R>, base: seq<R>, pending: map<Key, R>, n: nat)
    requires n <= |base|
    ensures DeletedKeys(c, base, pending, n) <= BaseKeys(c, base, n)
  {
  }

  /** With distinct base keys, the key of the base record at `n` is none of the earlier ones. */
  lemma FreshBaseKey<R>(c: Context<R>, base: seq<R>, n: nat)
    requires DistinctBaseKeys(c, base)
    requires n < |base|
    ensures c.keyOf(base[n]) !in BaseKeys(c, base, n)
  {
  }

  /** One step of `BaseEmissionKeys`: the key set of the first `n - 1` steps extends to `n`. */
  lemma BaseEmissionKeysStep<R>(c: Context<R>, base: seq<R>, pending: map<Key, R>, n: nat)
    requires DistinctBaseKeys(c, base)
    requires 0 < n <= |base|
    requires KeySet(BaseEmissions(c, base, pending, n - 1)) == BaseKeys(c, base, n - 1) - DeletedKeys(c, base, pending, n - 1)
    ensures KeySet(BaseEmissions(c, base, pending, n)) == BaseKeys(c, base, n) - DeletedKeys(c, base, pending, n)
  {
    var prev := BaseEmissions(c, base, pending, n - 1);
    var s := StepAt(c, base, pending, n - 1);
    var k := c.keyOf(base[n - 1]);
    var b := BaseKeys(c, base, n - 1);
    var d := DeletedKeys(c, base, pending, n - 1);
    StepShape(c, base, pending, n - 1);
    KeySetAppend(prev, AsSeq(s));
    BaseKeysStep(c, base, n);
    DeletedKeysStep(c, base, pending, n);
    FreshBaseKey(c, base, n - 1);
    DeletedKeysAreBaseKeys(c, base, pending, n - 1);
    assert k !in b && d <= b;
    if s.Some? {
      assert AsSeq(s) == [s.value] && AsSeq(s)[0].key == k;
      assert !Deleted(c, base, pending, n - 1);
      calc {
        KeySet(BaseEmissions(c, base, pending, n));
        KeySet(prev + AsSeq(s));
        KeySet(prev) + KeySet(AsSeq(s));
        { assert KeySet(AsSeq(s)) == {k}; }
        (b - d) + {k};
        { assert k !in d; }
        (b + {k}) - d;
        BaseKeys(c, base, n) - DeletedKeys(c, base, pending, n);
      }
    } else {
      assert AsSeq(s) == [];
      assert Deleted(c, base, pending, n - 1);
      calc {
        KeySet(BaseEmissions(c, base, pending, n));
        KeySet(prev + AsSeq(s));
        KeySet(prev) + KeySet(AsSeq(s));
        { assert KeySet(AsSeq(s)) == {}; }
        b - d;
        { assert k !in b; }
        (b + {k}) - (d + {k});
        BaseKeys(c, base, n) - DeletedKeys(c, base, pending, n);
      }
    }
  }

  /** With distinct base keys, the base phase emits exactly the keys read so far that were not deleted. */
  lemma {:induction false} BaseEmissionKeys<R>(c: Context<R>, base: seq<R>, pending: map<Key, R>, n: nat)
    requires DistinctBaseKeys(c, base)
    requires n <= |base|
    ensures KeySet(BaseEmissions(c, base, pending, n)) == BaseKeys(c, base, n) - DeletedKeys(c, base, pending, n)
  {
    if n > 0 {
      BaseEmissionKeys(c, base, pending, n - 1);
      BaseEmissionKeysStep(c, base, pending, n);
    }
  }

  /** With distinct base keys, the base phase emits no key twice. */
  lemma {:induction false} BaseEmissionsDistinct<R>(c: Context<R>, base: seq<R>, pending: map<Key, R>, n: nat)
    requires DistinctBaseKeys(c, base)
    requires n <= |base|
    ensures DistinctKeys(BaseEmissions(c, base, pending, n))
  {
    if n > 0 {
      BaseEmissionsDistinct(c, base, pending, n - 1);
      BaseEmissionKeys(c, base, pending, n - 1);
      var prev := BaseEmissions(c, base, pending, n - 1);
      var s := StepAt(c, base, pending, n - 1);
      var k := c.keyOf(base[n - 1]);
      StepShape(c, base, pending, n - 1);
      FreshBaseKey(c, base, n - 1);
      DeletedKeysAreBaseKeys(c, base, pending, n - 1);
      if s.Some? {
        var out := prev + [s.value];
        assert k !in KeySet(prev);
        forall i, j | 0 <= i < j < |out| ensures out[i].key != out[j].key {
          assert out[i] == prev[i];
          if j == |prev| {
            assert out[j] == s.value && s.value.key == k;
            assert prev[i].key in KeySet(prev);
          } else {
            assert out[j] == prev[j];
          }
        }
      } else {
        assert AsSeq(s) == [];
      }
    }
  }

  /**
   * Pass-through and merge: every base-phase emission belongs to one base record; it is
   * that record wrapped when its key is no longer live when the record is read, and
   * otherwise the wrapped result of merging the base record (older) with the scanner's
   * log record (newer), which is then present.
   */
  lemma BaseDerivedEmissions<R>(c: Context<R>, base: seq<R>, pending: map<Key, R>)
    ensures var e := BaseEmissions(c, base, pending, |base|);
      forall i :: 0 <= i < |e| ==>
        && e[i].origin.FromBase? && e[i].origin.pos < |base|
        && var r := base[e[i].origin.pos];
        && e[i].key == c.keyOf(r)
        && (e[i].origin.merged <==> e[i].key in Pending(c, base, pending, e[i].origin.pos))
        && (!e[i].origin.merged ==> e[i].value == Wrap(c, r))
        && (e[i].origin.merged ==>
              e[i].key in pending &&
              c.merge(r, pending[e[i].key], c.props).Some? &&
              e[i].value == Wrap(c, c.merge(r, pending[e[i].key], c.props).value))
  {
    BaseEmissionsAreSteps(c, base, pending, |base|);
  }

  /**
   * With distinct base keys the live map at a record's turn agrees with the scanner's
   * map on that record's key, so an emission is merged exactly when the log had its key.
   */
  lemma MergedExactlyWhenLogged<R>(c: Context<R>, base: seq<R>, pending: map<Key, R>)
    requires DistinctBaseKeys(c, base)
    ensures var e := BaseEmissions(c, base, pending, |base|);
      forall i :: 0 <= i < |e| ==> e[i].origin.FromBase? && (e[i].origin.merged <==> e[i].key in pending)
  {
    BaseDerivedEmissions(c, base, pending);
    forall p | 0 <= p < |base| { PendingAtOwnKey(c, base, pending, p); }
  }

  /**
   * Every base record is accounted for: it yields an emission exactly when it is not
   * deleted, so it is emitted at most once and a deleted one not at all.
   */
  lemma BaseCoverage<R>(c: Context<R>, base: seq<R>, pending: map<Key, R>)
    ensures BasePositions(BaseEmissions(c, base, pending, |base|)) ==
            set p | 0 <= p < |base| && !Deleted(c, base, pending, p)
  {
    BaseEmissionPositions(c, base, pending, |base|);
  }

  /**
   * Base-only pass-through: with no pending log records every base record's wrap outcome
   * is emitted, unmerged and in cursor order, and the merger is never called.
   */
  lemma {:induction false} EmptyLogIsPassThrough<R>(c: Context<R>, base: seq<R>, n: nat)
    requires n <= |base|
    ensures BaseEmissions(c, base, map[], n) ==
      seq(n, p requires 0 <= p < n => Emission(c.keyOf(base[p]), FromBase(p, false), Wrap(c, base[p])))
    ensures BaseMergeCalls(c, base, map[], n) == []
  {
    if n > 0 {
      EmptyLogIsPassThrough(c, base, n - 1);
      EmptyLogStep(c, base, n - 1);
      var e := Emission(c.keyOf(base[n - 1]), FromBase(n - 1, false), Wrap(c, base[n - 1]));
      var prev := seq(n - 1, p requires 0 <= p < n - 1 => Emission(c.keyOf(base[p]), FromBase(p, false), Wrap(c, base[p])));
      var now := seq(n, p requires 0 <= p < n => Emission(c.keyOf(base[p]), FromBase(p, false), Wrap(c, base[p])));
      assert now == prev + [e];
    }
  }

  /** With no pending log records, the base record at `p` passes through without a merger call. */
  lemma EmptyLogStep<R>(c: Context<R>, base: seq<R>, p: nat)
    requires p < |base|
    ensures StepAt(c, base, map[], p) == Some(Emission(c.keyOf(base[p]), FromBase(p, false), Wrap(c, base[p])))
    ensures CallAt(c, base, map[], p) == None
  {
    PendingIsDifference(c, base, map[], p);
    assert Pending(c, base, map[], p) == map[];
  }

  // ---------------------------------------------------------------------------
  // Merger calls

  /** Each merger call of the base phase is the call of its own base record's step. */
  lemma {:induction false} BaseMergeCallsAreSteps<R>(c: Context<R>, base: seq<R>, pending: map<Key, R>, n: nat)
    requires n <= |base|
    ensures forall i :: 0 <= i < |BaseMergeCalls(c, base, pending, n)| ==>
      var m := BaseMergeCalls(c, base, pending, n)[i];
      m.pos < n && CallAt(c, base, pending, m.pos) == Some(m)
  {
    if n > 0 {
      BaseMergeCallsAreSteps(c, base, pending, n - 1);
      StepShape(c, base, pending, n - 1);
      var prev := BaseMergeCalls(c, base, pending, n - 1);
      var m := BaseMergeCalls(c, base, pending, n);
      var s := CallAt(c, base, pending, n - 1);
      assert m == prev + AsSeq(s);
      forall i | 0 <= i < |m| ensures m[i].pos < n && CallAt(c, base, pending, m[i].pos) == Some(m[i]) {
        if i < |prev| { assert m[i] == prev[i]; } else { assert s.Some?; assert m[i] == s.value; }
      }
    }
  }

  ghost predicate CallsInBaseOrder<R>(m: seq<MergeCall<R>>) {
    forall i, j :: 0 <= i < j < |m| ==> m[i].pos < m[j].pos
  }

  /** The merger is called in base-cursor order. */
  lemma {:induction false} BaseMergeCallsInOrder<R>(c: Context<R>, base: seq<R>, pending: map<Key, R>, n: nat)
    requires n <= |base|
    ensures CallsInBaseOrder(BaseMergeCalls(c, base, pending, n))
  {
    if n > 0 {
      BaseMergeCallsInOrder(c, base, pending, n - 1);
      BaseMergeCallsAreSteps(c, base, pending, n - 1);
      StepShape(c, base, pending, n - 1);
      var prev := BaseMergeCalls(c, base, pending, n - 1);
      var m := BaseMergeCalls(c, base, pending, n);
      var s := CallAt(c, base, pending, n - 1);
      assert m == prev + AsSeq(s);
      assert CallsInBaseOrder(prev);
      forall i, j | 0 <= i < j < |m| ensures m[i].pos < m[j].pos {
        assert m[i] == prev[i];
        assert prev[i].pos < n - 1;
        if j < |prev| {
          assert m[j] == prev[j];
        } else {
          assert s.Some?;
          assert m[j] == s.value;
        }
      }
    }
  }

  /** Every base position whose step calls the merger is a position of the base-phase calls. */
  lemma {:induction false} StepCallsAreMade<R>(c: Context<R>, base: seq<R>, pending: map<Key, R>, n: nat)
    requires n <= |base|
    ensures forall p :: 0 <= p < n && CallAt(c, base, pending, p).Some? ==> p in CallPositions(BaseMergeCalls(c, base, pending, n))
  {
    if n > 0 {
      StepCallsAreMade(c, base, pending, n - 1);
      var prev := BaseMergeCalls(c, base, pending, n - 1);
      var s := CallAt(c, base, pending, n - 1);
      var m := BaseMergeCalls(c, base, pending, n);
      assert m == prev + AsSeq(s);
      forall p | 0 <= p < n && CallAt(c, base, pending, p).Some? ensures p in CallPositions(m) {
        if p < n - 1 {
          assert p in CallPositions(prev);
          var i :| 0 <= i < |prev| && prev[i].pos == p;
          assert m[i] == prev[i];
        } else {
          StepShape(c, base, pending, p);
          assert m[|prev|] == s.value;
        }
      }
    }
  }

  /** The merger is called for a base position exactly when its step calls it. */
  lemma BaseMergeCallPositions<R>(c: Context<R>, base: seq<R>, pending: map<Key, R>, n: nat)
    requires n <= |base|
    ensures CallPositions(BaseMergeCalls(c, base, pending, n)) == set p | 0 <= p < n && CallAt(c, base, pending, p).Some?
  {
    var m := BaseMergeCalls(c, base, pending, n);
    BaseMergeCallsAreSteps(c, base, pending, n);
    StepCallsAreMade(c, base, pending, n);
    forall p | p in CallPositions(m) ensures 0 <= p < n && CallAt(c, base, pending, p).Some? {
      var i :| 0 <= i < |m| && m[i].pos == p;
      assert CallAt(c, base, pending, p) == Some(m[i]);
    }
  }

  /**
   * Merge direction: every merger call takes a base record as the older argument and the
   * pending log record of the same key, as the scanner held it, as the newer argument.
   * Calls follow base order, and the merger is called for a base record exactly when its
   * key is still pending; in particular never for a pass-through record.
   */
  lemma MergeDirection<R>(c: Context<R>, base: seq<R>, pending: map<Key, R>)
    ensures var m := BaseMergeCalls(c, base, pending, |base|);
      && (forall i :: 0 <= i < |m| ==>
            && m[i].pos < |base| && m[i].older == base[m[i].pos]
            && c.keyOf(m[i].older) in pending && m[i].newer == pending[c.keyOf(m[i].older)]
            && m[i].result == c.merge(m[i].older, m[i].newer, c.props))
      && (forall i, j :: 0 <= i < j < |m| ==> m[i].pos < m[j].pos)
      && CallPositions(m) == set p | 0 <= p < |base| && c.keyOf(base[p]) in Pending(c, base, pending, p)
    ensures var e := BaseEmissions(c, base, pending, |base|);
      forall i :: 0 <= i < |e| && e[i].origin.FromBase? && !e[i].origin.merged ==> e[i].origin.pos !in CallPositions(BaseMergeCalls(c, base, pending, |base|))
  {
    BaseMergeCallsAreSteps(c, base, pending, |base|);
    BaseMergeCallsInOrder(c, base, pending, |base|);
    BaseMergeCallPositions(c, base, pending, |base|);
    BaseEmissionsAreSteps(c, base, pending, |base|);
  }

  // ---------------------------------------------------------------------------
  // Single steps, as the reader takes them

  /** Handing out one more pending entry keeps a partial drain a partial drain. */
  lemma DrainStep<R>(tail: seq<Emission<R>>, m: map<Key, R>, k: Key)
    requires PartialDrain(tail, m)
    requires k in m - KeySet(tail)
    ensures PartialDrain(tail + [Emission(k, FromLogOnly, Ok(m[k]))], m)
    ensures m - KeySet(tail + [Emission(k, FromLogOnly, Ok(m[k]))]) == (m - KeySet(tail)) - {k}
  {
    var e := Emission(k, FromLogOnly, Ok(m[k]));
    KeySetAppend(tail, [e]);
    assert [e][0].key == k;
    assert KeySet([e]) == {k};
    var t := tail + [e];
    forall i, j | 0 <= i < j < |t| ensures t[i].key != t[j].key {
      if j == |tail| { assert t[i] == tail[i]; assert t[i].key in KeySet(tail); }
      else { assert t[i] == tail[i] && t[j] == tail[j]; }
    }
  }

  // ---------------------------------------------------------------------------
  // The reader's state

  /**
   * The state of a reader that has read `pos` base records: the live pending map is what
   * the base phase left minus what the tail has handed out, the tail only runs once the
   * cursor is exhausted, and the traces are those of the base phase followed by the tail.
   */
  ghost predicate ReaderInvariant<R>(c: Context<R>, base: seq<R>, pending: map<Key, R>, pos: nat,
                                     records: map<Key, R>, emitted: seq<Emission<R>>,
                                     mergeCalls: seq<MergeCall<R>>, drained: seq<Emission<R>>)
  {
    && pos <= |base|
    && (pos < |base| ==> drained == [])
    && PartialDrain(drained, Pending(c, base, pending, pos))
    && records == Pending(c, base, pending, pos) - KeySet(drained)
    && emitted == BaseEmissions(c, base, pending, pos) + drained
    && mergeCalls == BaseMergeCalls(c, base, pending, pos)
  }

  lemma InvariantInit<R>(c: Context<R>, base: seq<R>, pending: map<Key, R>)
    ensures ReaderInvariant(c, base, pending, 0, pending, [], [], [])
  {
  }

  /**
   * Reading the base record at `pos`: its key is removed from the live map, and what is
   * emitted and called is decided by the log record found there, if any.
   */
  lemma InvariantBaseStep<R>(c: Context<R>, base: seq<R>, pending: map<Key, R>, pos: nat,
                             records: map<Key, R>, emitted: seq<Emission<R>>,
                             mergeCalls: seq<MergeCall<R>>, drained: seq<Emission<R>>)
    requires ReaderInvariant(c, base, pending, pos, records, emitted, mergeCalls, drained)
    requires pos < |base|
    ensures var k := c.keyOf(base[pos]);
      && (k !in records ==>
            && StepAt(c, base, pending, pos) == Some(Emission(k, FromBase(pos, false), Wrap(c, base[pos])))
            && CallAt(c, base, pending, pos) == None)
      && (k in records ==>
            var merged := c.merge(base[pos], records[k], c.props);
            && StepAt(c, base, pending, pos) == (if merged.Some? then Some(Emission(k, FromBase(pos, true), Wrap(c, merged.value))) else None)
            && CallAt(c, base, pending, pos) == Some(MergeCall(pos, base[pos], records[k], merged)))
      && ReaderInvariant(c, base, pending, pos + 1, records - {k},
                         emitted + AsSeq(StepAt(c, base, pending, pos)),
                         mergeCalls + AsSeq(CallAt(c, base, pending, pos)), drained)
  {
  }

  /** Handing out the pending entry of `k` in the tail phase. */
  lemma InvariantTailStep<R>(c: Context<R>, base: seq<R>, pending: map<Key, R>, pos: nat,
                             records: map<Key, R>, emitted: seq<Emission<R>>,
                             mergeCalls: seq<MergeCall<R>>, drained: seq<Emission<R>>, k: Key)
    requires ReaderInvariant(c, base, pending, pos, records, emitted, mergeCalls, drained)
    requires pos == |base| && k in records
    ensures var e := Emission(k, FromLogOnly, Ok(records[k]));
      ReaderInvariant(c, base, pending, pos, records - {k}, emitted + [e], mergeCalls, drained + [e])
  {
    var rest := Pending(c, base, pending, pos);
    DrainStep(drained, rest, k);
  }

  // ---------------------------------------------------------------------------
  // The whole output

  /**
   * Exactly-once emission (distinct base keys): base phase followed by a drain of what is
   * left pending emits the keys B + P minus the deleted ones, each exactly once.
   */
  lemma ExactlyOnce<R>(c: Context<R>, base: seq<R>, pending: map<Key, R>, tail: seq<Emission<R>>)
    requires DistinctBaseKeys(c, base)
    requires Drain(tail, Pending(c, base, pending, |base|))
    ensures var out := BaseEmissions(c, base, pending, |base|) + tail;
      && KeySet(out) == (BaseKeys(c, base, |base|) + pending.Keys) - DeletedKeys(c, base, pending, |base|)
      && DistinctKeys(out)
  {
    var n := |base|;
    var e := BaseEmissions(c, base, pending, n);
    var out := e + tail;
    BaseEmissionKeys(c, base, pending, n);
    BaseEmissionsDistinct(c, base, pending, n);
    PendingIsDifference(c, base, pending, n);
    KeySetAppend(e, tail);
    DeletedKeysAreBaseKeys(c, base, pending, n);
    forall i, j | 0 <= i < j < |out| ensures out[i].key != out[j].key {
      if j >= |e| && i < |e| {
        assert out[i].key in KeySet(e);
        assert out[j].key == tail[j - |e|].key;
      }
    }
  }

  /** Delete suppression (distinct base keys): a deleted key is emitted by neither phase. */
  lemma DeleteSuppression<R>(c: Context<R>, base: seq<R>, pending: map<Key, R>, tail: seq<Emission<R>>)
    requires DistinctBaseKeys(c, base)
    requires Drain(tail, Pending(c, base, pending, |base|))
    ensures forall p :: 0 <= p < |base| && Deleted(c, base, pending, p) ==>
      c.keyOf(base[p]) !in KeySet(BaseEmissions(c, base, pending, |base|) + tail)
  {
    ExactlyOnce(c, base, pending, tail);
  }

  /** Ordering: base-derived emissions first and in base order, then the tail. */
  lemma Ordering<R>(c: Context<R>, base: seq<R>, pending: map<Key, R>, tail: seq<Emission<R>>)
    requires PartialDrain(tail, Pending(c, base, pending, |base|))
    ensures BaseFirstInBaseOrder(BaseEmissions(c, base, pending, |base|) + tail)
  {
    var e := BaseEmissions(c, base, pending, |base|);
    BaseEmissionsInOrder(c, base, pending, |base|);
    var out := e + tail;
    assert forall k :: |e| <= k < |out| ==> out[k] == tail[k - |e|];
    assert forall i, j :: 0 <= i < j < |e| ==> out[i] == e[i] && out[j] == e[j];
  }
}
