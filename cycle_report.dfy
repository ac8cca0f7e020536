/** A circular reference that `circular_dependency?` never reports. The walk
    in lib/jobs_sequencer.rb stops only when it meets the job or its
    dependency, or a value with no entry; a cycle further down the chain,
    not through either of them, makes it recurse without end, and the stack
    overflow that ends it in Ruby is not one of the permissible errors, so
    the call raises instead of returning a failure. `Reported` is the
    outcome with such a walk reported as the circular reference it is. */
module CycleReport {
  import opened JobsHash
  import opened JobsSequencer
  import opened CircularWalk
  import opened SequencerVectors

  /** The outcome of the call when a walk that would never return is
      reported as a `CircularReferenceError`. */
  function Reported(jobs: seq<Entry>): Outcome {
    match Sequenced(jobs)
    case Diverges => Failure(CircularReferenceError)
    case other => other
  }

  /** Corrected: the call always ends in a success or a permissible error, it
      succeeds exactly when the dependency graph has no cycle, and then with
      the same sequence as before. */
  lemma ReportedReportsEveryCycle(jobs: seq<Entry>)
    requires DistinctKeys(jobs)
    ensures Reported(jobs).Success? || Reported(jobs).Failure?
    ensures Reported(jobs).Success? <==> Acyclic(jobs)
    ensures !Acyclic(jobs) ==> Reported(jobs).Failure?
    ensures Reported(jobs).Success? ==> Reported(jobs) == Sequenced(jobs)
  {
    SucceedsIffAcyclic(jobs);
  }

  /** As written: {'x' => 'a', 'a' => 'b', 'b' => 'c', 'c' => 'b'} has the
      cycle b, c, b, yet the call neither succeeds nor fails. */
  lemma EndlessIsCircular()
    ensures !Acyclic(EndlessJobs)
    ensures Sequenced(EndlessJobs) == Diverges
  {
    EndlessLookups();
    assert Iterate(EndlessJobs, Name(EndlessJobs[2].0), 2) == Name('b');
    EndlessWalk();
  }

  /** Corrected, on the same hash: a CircularReferenceError. */
  lemma EndlessReported()
    ensures Reported(EndlessJobs) == Failure(CircularReferenceError)
  {
    EndlessWalk();
  }
}
