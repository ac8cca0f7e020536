/** What the circular-dependency walk of lib/jobs_sequencer.rb decides.

    The walk follows the functional graph "key -> its dependency". `Next` is
    one step of it and `Iterate` is `m` steps; both send '' and ids that are
    not keys to ''. The results here:
    - fuel only matters when it runs out (`WalkMonotone`), and running out at
      one step per hash entry means the Ruby recursion never returns
      (`LoopsForever`);
    - a walk that reaches the job or its dependency is always reported as a
      circular reference (`CircularReferenceDetected`);
    - the sequencer succeeds exactly when no key reaches itself again
      (`SucceedsIffAcyclic`). */
module CircularWalk {
  import opened Seqs
  import opened JobsHash
  import opened JobsSequencer

  /** One step along the dependency graph. */
  function Next(jobs: seq<Entry>, t: Token): Token {
    match Parent(jobs, t)
    case None => Empty
    case Some(p) => p
  }

  /** `m` steps along the dependency graph. */
  function Iterate(jobs: seq<Entry>, t: Token, m: nat): Token
    decreases m
  {
    if m == 0 then t else Iterate(jobs, Next(jobs, t), m - 1)
  }

  /** No key comes back to itself by following dependencies; this includes
      a key that depends on itself. */
  ghost predicate Acyclic(jobs: seq<Entry>) {
    forall i, m :: 0 <= i < |jobs| && 1 <= m ==> Iterate(jobs, Name(jobs[i].0), m) != Name(jobs[i].0)
  }

  /** The walk from `t` does one more step: `t` is a key whose value is
      neither the job nor its dependency. */
  predicate Live(jobs: seq<Entry>, job: char, dep: Token, t: Token) {
    Parent(jobs, t).Some? && Parent(jobs, t).value != Name(job) && Parent(jobs, t).value != dep
  }

  /** The tokens that name keys. */
  ghost function KeyNames(jobs: seq<Entry>): (names: set<Token>)
    ensures |names| <= |jobs|
  {
    var s := seq(|jobs|, i requires 0 <= i < |jobs| => Name(jobs[i].0));
    SeqSetCardinality(s);
    var names := set i | 0 <= i < |jobs| :: Name(jobs[i].0);
    assert (set i | 0 <= i < |s| :: s[i]) == names by {
      forall x ensures x in (set i | 0 <= i < |s| :: s[i]) <==> x in names {
        if x in names {
          var i :| 0 <= i < |jobs| && x == Name(jobs[i].0);
          assert s[i] == x;
        }
      }
    }
    names
  }

  lemma {:induction false} IterateAdd(jobs: seq<Entry>, t: Token, a: nat, b: nat)
    ensures Iterate(jobs, t, a + b) == Iterate(jobs, Iterate(jobs, t, a), b)
    decreases a
  {
    if a > 0 {
      IterateAdd(jobs, Next(jobs, t), a - 1, b);
    }
  }

  /** '' leads nowhere. */
  lemma {:induction false} EmptyStays(jobs: seq<Entry>, m: nat)
    ensures Iterate(jobs, Empty, m) == Empty
  {
    if m > 0 {
      EmptyStays(jobs, m - 1);
    }
  }

  /** A token that has a parent names a key. */
  lemma ParentNamesKey(jobs: seq<Entry>, t: Token)
    requires Parent(jobs, t).Some?
    ensures t in KeyNames(jobs)
    ensures exists i :: 0 <= i < |jobs| && jobs[i].0 == t.id
  {
    var i := IndexOf(Keys(jobs), t.id).value;
    assert Name(jobs[i].0) in KeyNames(jobs);
  }

  /** A chain that is not yet '' has found a parent at every earlier step. */
  lemma ChainAlive(jobs: seq<Entry>, t: Token, a: nat, u: nat)
    requires u < a && Iterate(jobs, t, a) != Empty
    ensures Parent(jobs, Iterate(jobs, t, u)).Some?
  {
    if Parent(jobs, Iterate(jobs, t, u)).None? {
      IterateAdd(jobs, t, u, 1);
      IterateAdd(jobs, t, u + 1, a - u - 1);
      EmptyStays(jobs, a - u - 1);
    }
  }

  /** More fuel never changes a verdict that was reached. */
  lemma {:induction false} WalkMonotone(jobs: seq<Entry>, job: char, dep: Token, sel: Token, f: nat, g: nat)
    requires g >= f
    requires CircularDependency(jobs, job, dep, sel, f) != Loops
    ensures CircularDependency(jobs, job, dep, sel, g) == CircularDependency(jobs, job, dep, sel, f)
    decreases f
  {
    if Live(jobs, job, dep, sel) && f > 0 {
      WalkMonotone(jobs, job, dep, Next(jobs, sel), f - 1, g - 1);
    }
  }

  /** Running out of fuel `f` means the first `f + 1` positions were all live. */
  lemma {:induction false} LoopsMeansLive(jobs: seq<Entry>, job: char, dep: Token, sel: Token, f: nat)
    requires CircularDependency(jobs, job, dep, sel, f) == Loops
    ensures forall u :: 0 <= u <= f ==> Live(jobs, job, dep, Iterate(jobs, sel, u))
    decreases f
  {
    if f > 0 {
      var p := Next(jobs, sel);
      LoopsMeansLive(jobs, job, dep, p, f - 1);
      forall u | 1 <= u <= f ensures Live(jobs, job, dep, Iterate(jobs, sel, u)) {
        assert Iterate(jobs, sel, u) == Iterate(jobs, p, u - 1);
      }
    }
  }

  /** Conversely, `f + 1` live positions exhaust fuel `f`. */
  lemma {:induction false} LiveMeansLoops(jobs: seq<Entry>, job: char, dep: Token, sel: Token, f: nat)
    requires forall u :: 0 <= u <= f ==> Live(jobs, job, dep, Iterate(jobs, sel, u))
    ensures CircularDependency(jobs, job, dep, sel, f) == Loops
    decreases f
  {
    assert Iterate(jobs, sel, 0) == sel;
    if f > 0 {
      var p := Next(jobs, sel);
      forall u | 0 <= u <= f - 1 ensures Live(jobs, job, dep, Iterate(jobs, p, u)) {
        assert Iterate(jobs, sel, u + 1) == Iterate(jobs, p, u);
      }
      LiveMeansLoops(jobs, job, dep, p, f - 1);
    }
  }

  /** Running out of fuel `f` with `f` at least the number of entries
      visits some key twice. */
  lemma LoopsRepeats(jobs: seq<Entry>, job: char, dep: Token, sel: Token, f: nat)
    requires f >= |jobs|
    requires CircularDependency(jobs, job, dep, sel, f) == Loops
    ensures exists i, j :: 0 <= i < j <= f && Iterate(jobs, sel, i) == Iterate(jobs, sel, j) &&
                           Parent(jobs, Iterate(jobs, sel, i)).Some?
  {
    LoopsMeansLive(jobs, job, dep, sel, f);
    var trace := seq(f + 1, u requires 0 <= u <= f => Iterate(jobs, sel, u));
    forall u | 0 <= u < |trace| ensures trace[u] in KeyNames(jobs) {
      ParentNamesKey(jobs, trace[u]);
    }
    Pigeonhole(trace, KeyNames(jobs));
    var i, j :| 0 <= i < j < |trace| && trace[i] == trace[j];
    assert Live(jobs, job, dep, Iterate(jobs, sel, i));
  }

  /** Fuel of one step per entry is enough: a walk that runs out of it would
      run out of any fuel, so the unbounded Ruby recursion never returns. */
  lemma LoopsForever(jobs: seq<Entry>, job: char, dep: Token, sel: Token, g: nat)
    requires CircularDependency(jobs, job, dep, sel, |jobs|) == Loops
    ensures CircularDependency(jobs, job, dep, sel, g) == Loops
  {
    var f := |jobs|;
    LoopsMeansLive(jobs, job, dep, sel, f);
    LoopsRepeats(jobs, job, dep, sel, f);
    var i, j :| 0 <= i < j <= f && Iterate(jobs, sel, i) == Iterate(jobs, sel, j) &&
                Parent(jobs, Iterate(jobs, sel, i)).Some?;
    forall u | 0 <= u ensures Live(jobs, job, dep, Iterate(jobs, sel, u)) {
      LiveAfterRepeat(jobs, job, dep, sel, f, i, j, u);
    }
    LiveMeansLoops(jobs, job, dep, sel, g);
  }

  /** Past a repeat, the walk goes round the same positions again. */
  lemma {:induction false} LiveAfterRepeat(jobs: seq<Entry>, job: char, dep: Token, sel: Token, f: nat, i: nat, j: nat, u: nat)
    requires i < j <= f
    requires Iterate(jobs, sel, i) == Iterate(jobs, sel, j)
    requires forall v :: 0 <= v <= f ==> Live(jobs, job, dep, Iterate(jobs, sel, v))
    ensures Live(jobs, job, dep, Iterate(jobs, sel, u))
    decreases u
  {
    if u > f {
      var back := u - (j - i);
      LiveAfterRepeat(jobs, job, dep, sel, f, i, j, back);
      IterateAdd(jobs, sel, j, u - j);
      IterateAdd(jobs, sel, i, u - j);
      assert i + (u - j) == back;
    }
  }

  /** A walk rejected as circular found the job or the dependency as the
      value of some key it reached. */
  lemma {:induction false} RejectedMeansHit(jobs: seq<Entry>, job: char, dep: Token, sel: Token, f: nat)
    requires CircularDependency(jobs, job, dep, sel, f) == Rejected(CircularReferenceError)
    ensures exists u :: (0 <= u <= f &&
      (Parent(jobs, Iterate(jobs, sel, u)) == Some(Name(job)) || Parent(jobs, Iterate(jobs, sel, u)) == Some(dep)))
    decreases f
  {
    var p := Next(jobs, sel);
    assert Iterate(jobs, sel, 0) == sel;
    if Parent(jobs, sel) != Some(Name(job)) && Parent(jobs, sel) != Some(dep) {
      RejectedMeansHit(jobs, job, dep, p, f - 1);
      var u :| 0 <= u <= f - 1 &&
        (Parent(jobs, Iterate(jobs, p, u)) == Some(Name(job)) || Parent(jobs, Iterate(jobs, p, u)) == Some(dep));
      assert Iterate(jobs, sel, u + 1) == Iterate(jobs, p, u);
    }
  }

  /** A chain that finds a parent at each of its first `t` steps and then
      finds the job or the dependency is rejected as circular, given fuel `t`. */
  lemma {:induction false} HitMeansRejected(jobs: seq<Entry>, job: char, dep: Token, sel: Token, t: nat, f: nat)
    requires f >= t
    requires forall u :: 0 <= u < t ==> Parent(jobs, Iterate(jobs, sel, u)).Some?
    requires Parent(jobs, Iterate(jobs, sel, t)) == Some(Name(job)) || Parent(jobs, Iterate(jobs, sel, t)) == Some(dep)
    ensures CircularDependency(jobs, job, dep, sel, f) == Rejected(CircularReferenceError)
    decreases t
  {
    var p := Next(jobs, sel);
    assert Iterate(jobs, sel, 0) == sel;
    if t > 0 && Parent(jobs, sel) != Some(Name(job)) && Parent(jobs, sel) != Some(dep) {
      forall u | 0 <= u < t - 1 ensures Parent(jobs, Iterate(jobs, p, u)).Some? {
        assert Iterate(jobs, sel, u + 1) == Iterate(jobs, p, u);
      }
      assert Iterate(jobs, sel, t) == Iterate(jobs, p, t - 1);
      HitMeansRejected(jobs, job, dep, p, t - 1, f - 1);
    }
  }

  /** Whenever following the dependency reaches a key whose value is the job
      or the dependency itself, after any number of steps, the pair is
      rejected as a circular reference: the fuel of one step per entry never
      hides it. */
  lemma CircularReferenceDetected(jobs: seq<Entry>, job: char, dep: Token, t: nat)
    requires dep != Name(job)
    requires forall u :: 0 <= u < t ==> Parent(jobs, Iterate(jobs, dep, u)).Some?
    requires Parent(jobs, Iterate(jobs, dep, t)) == Some(Name(job)) || Parent(jobs, Iterate(jobs, dep, t)) == Some(dep)
    ensures Errors(jobs, job, dep) == Rejected(CircularReferenceError)
  {
    var n := |jobs|;
    var big := if n >= t then n else t;
    HitMeansRejected(jobs, job, dep, dep, t, big);
    var v := CircularDependency(jobs, job, dep, dep, n);
    if v == Loops {
      LoopsForever(jobs, job, dep, dep, big);
    } else if v == Accepted {
      WalkMonotone(jobs, job, dep, dep, n, big);
    }
    assert SelfDependency(job, dep) == Accepted;
    assert v == Rejected(CircularReferenceError);
  }

  /** Some key reaches itself again after `m >= 1` steps. */
  ghost predicate HasCycle(jobs: seq<Entry>) {
    exists i, m :: 0 <= i < |jobs| && 1 <= m && Iterate(jobs, Name(jobs[i].0), m) == Name(jobs[i].0)
  }

  /** A walk that runs out of fuel means the hash has a cycle. */
  lemma LoopsGivesCycle(jobs: seq<Entry>, job: char, dep: Token)
    requires CircularDependency(jobs, job, dep, dep, |jobs|) == Loops
    ensures HasCycle(jobs)
  {
    LoopsRepeats(jobs, job, dep, dep, |jobs|);
    var i, j :| 0 <= i < j <= |jobs| && Iterate(jobs, dep, i) == Iterate(jobs, dep, j) &&
                Parent(jobs, Iterate(jobs, dep, i)).Some?;
    RepeatIsCycle(jobs, dep, i, j);
  }

  /** A token met twice along a chain, the first time with a parent, is a key
      on a cycle. */
  lemma RepeatIsCycle(jobs: seq<Entry>, t: Token, i: nat, j: nat)
    requires i < j && Iterate(jobs, t, i) == Iterate(jobs, t, j)
    requires Parent(jobs, Iterate(jobs, t, i)).Some?
    ensures HasCycle(jobs)
  {
    var c := Iterate(jobs, t, i);
    ParentNamesKey(jobs, c);
    var k :| 0 <= k < |jobs| && jobs[k].0 == c.id;
    IterateAdd(jobs, t, i, j - i);
    assert Iterate(jobs, Name(jobs[k].0), j - i) == Name(jobs[k].0);
  }

  lemma IterateStep(jobs: seq<Entry>, t: Token, u: nat)
    ensures Iterate(jobs, t, u + 1) == Next(jobs, Iterate(jobs, t, u))
  {
    IterateAdd(jobs, t, u, 1);
  }

  /** A pair rejected as circular means the hash has a cycle. */
  lemma RejectedGivesCycle(jobs: seq<Entry>, k: nat, dep: Token)
    requires k < |jobs| && Next(jobs, Name(jobs[k].0)) == dep
    requires CircularDependency(jobs, jobs[k].0, dep, dep, |jobs|) == Rejected(CircularReferenceError)
    ensures HasCycle(jobs)
  {
    var job := jobs[k].0;
    RejectedMeansHit(jobs, job, dep, dep, |jobs|);
    var u :| 0 <= u <= |jobs| &&
      (Parent(jobs, Iterate(jobs, dep, u)) == Some(Name(job)) || Parent(jobs, Iterate(jobs, dep, u)) == Some(dep));
    IterateStep(jobs, dep, u);
    if Parent(jobs, Iterate(jobs, dep, u)) == Some(Name(job)) {
      IterateAdd(jobs, Name(job), 1, u + 1);
      assert Iterate(jobs, Name(job), 1) == dep;
      assert Iterate(jobs, Name(jobs[k].0), u + 2) == Name(jobs[k].0);
    } else {
      ChainAlive(jobs, dep, u + 1, 0);
      assert Iterate(jobs, dep, 0) == dep;
      RepeatIsCycle(jobs, dep, 0, u + 1);
    }
  }

  /** In an acyclic hash every pair passes its checks. */
  lemma AcyclicAccepted(jobs: seq<Entry>, k: nat)
    requires DistinctKeys(jobs) && k < |jobs| && Acyclic(jobs)
    ensures EntryVerdict(jobs, k) == Accepted
  {
    var job, dep := jobs[k].0, jobs[k].1;
    GetEntry(jobs, k);
    assert Iterate(jobs, Name(job), 1) == dep;
    var v := CircularDependency(jobs, job, dep, dep, |jobs|);
    if v == Loops {
      LoopsGivesCycle(jobs, job, dep);
    } else if v.Rejected? {
      RejectedGivesCycle(jobs, k, dep);
    }
  }

  /** A key that reaches itself again makes its own pair fail. */
  lemma CycleRejected(jobs: seq<Entry>, k: nat, m: nat)
    requires DistinctKeys(jobs) && k < |jobs| && 1 <= m
    requires Iterate(jobs, Name(jobs[k].0), m) == Name(jobs[k].0)
    ensures EntryVerdict(jobs, k) != Accepted
  {
    var job, dep := jobs[k].0, jobs[k].1;
    GetEntry(jobs, k);
    assert Iterate(jobs, Name(job), 1) == dep;
    if m >= 2 && dep != Name(job) {
      IterateAdd(jobs, Name(job), 1, m - 1);
      assert Iterate(jobs, dep, m - 1) == Name(job);
      forall u | 0 <= u <= m - 2 ensures Parent(jobs, Iterate(jobs, dep, u)).Some? {
        ChainAlive(jobs, dep, m - 1, u);
      }
      IterateAdd(jobs, dep, m - 2, 1);
      CircularReferenceDetected(jobs, job, dep, m - 2);
    }
  }

  /** The sequencer succeeds on a hash exactly when its dependency graph has
      no cycle (self dependencies included). */
  lemma SucceedsIffAcyclic(jobs: seq<Entry>)
    requires DistinctKeys(jobs)
    ensures Sequenced(jobs).Success? <==> Acyclic(jobs)
  {
    if Acyclic(jobs) {
      forall k | 0 <= k < |jobs| ensures EntryVerdict(jobs, k) == Accepted {
        AcyclicAccepted(jobs, k);
      }
    } else {
      var k, m :| 0 <= k < |jobs| && 1 <= m && Iterate(jobs, Name(jobs[k].0), m) == Name(jobs[k].0);
      CycleRejected(jobs, k, m);
    }
  }
}
