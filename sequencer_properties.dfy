/** What `JobsSequencer.call` promises for every hash: a hash without
    dependencies comes back as its keys in order, and the first pair whose
    checks fail decides the outcome. */
module SequencerProperties {
  import opened Seqs
  import opened JobsHash
  import opened JobsSequencer

  /** The ids of a string, each as a token. */
  function NamesOf(s: string): seq<Token> {
    seq(|s|, i requires 0 <= i < |s| => Name(s[i]))
  }

  lemma {:induction false} JoinNames(s: string)
    ensures Join(NamesOf(s)) == s
  {
    if |s| > 0 {
      assert NamesOf(s)[1..] == NamesOf(s[1..]);
      JoinNames(s[1..]);
      assert s == [s[0]] + s[1..];
    }
  }

  /** With no dependencies, every pair is appended as it comes. */
  lemma {:induction false} PlacedNoDependencies(jobs: seq<Entry>)
    requires DistinctKeys(jobs)
    requires forall i :: 0 <= i < |jobs| ==> jobs[i].1 == Empty
    ensures Placed(jobs) == NamesOf(Keys(jobs))
  {
    if |jobs| > 0 {
      var init, last := jobs[..|jobs| - 1], jobs[|jobs| - 1];
      var ks := Keys(jobs);
      assert Keys(init) == ks[..|ks| - 1];
      PlacedNoDependencies(init);
      assert last.0 !in Keys(init);
      assert Name(last.0) !in NamesOf(Keys(init));
      PlaceAppends(Placed(init), last.0, last.1);
      assert NamesOf(ks) == NamesOf(Keys(init)) + [Name(last.0)];
    }
  }

  /** A hash whose jobs have no dependencies is sequenced as its keys, in
      insertion order. */
  lemma NoDependencies(jobs: seq<Entry>)
    requires DistinctKeys(jobs)
    requires forall i :: 0 <= i < |jobs| ==> jobs[i].1 == Empty
    ensures Sequenced(jobs) == Success(Keys(jobs))
  {
    forall k | 0 <= k < |jobs| ensures EntryVerdict(jobs, k) == Accepted {
    }
    PlacedNoDependencies(jobs);
    var names := NamesOf(Keys(jobs));
    assert Distinct(names);
    UniqOfDistinct(names);
    JoinNames(Keys(jobs));
  }

  /** The first pair whose checks do not pass ends the call: its error is the
      failure, and a walk that never returns is a divergence. */
  lemma FirstErrorDecides(jobs: seq<Entry>, i: nat)
    requires i < |jobs| && EntryVerdict(jobs, i) != Accepted
    requires forall k :: 0 <= k < i ==> EntryVerdict(jobs, k) == Accepted
    ensures EntryVerdict(jobs, i).Rejected? ==> Sequenced(jobs) == Failure(EntryVerdict(jobs, i).error)
    ensures EntryVerdict(jobs, i).Loops? ==> Sequenced(jobs) == Diverges
  {
    ScreenStopsAt(jobs, i);
  }

  /** A job that depends on itself never lets the call succeed, and when the
      pairs before it pass their checks it is reported as a self dependency,
      before any walk from it is tried. */
  lemma SelfDependencyFails(jobs: seq<Entry>, i: nat)
    requires i < |jobs| && jobs[i].1 == Name(jobs[i].0)
    ensures !Sequenced(jobs).Success?
    ensures (forall k :: 0 <= k < i ==> EntryVerdict(jobs, k) == Accepted) ==>
      Sequenced(jobs) == Failure(SelfDependencyError)
  {
    assert EntryVerdict(jobs, i) == Rejected(SelfDependencyError);
    if forall k :: 0 <= k < i ==> EntryVerdict(jobs, k) == Accepted {
      FirstErrorDecides(jobs, i);
    }
  }

  /** The call succeeds exactly when every pair passes its checks, and it
      fails with an error only when some pair's check reports that error. */
  lemma SuccessIffAllAccepted(jobs: seq<Entry>)
    ensures Sequenced(jobs).Success? <==> forall k :: 0 <= k < |jobs| ==> EntryVerdict(jobs, k) == Accepted
    ensures Sequenced(jobs).Failure? ==>
      exists k :: 0 <= k < |jobs| && EntryVerdict(jobs, k) == Rejected(Sequenced(jobs).error)
  {
  }
}
