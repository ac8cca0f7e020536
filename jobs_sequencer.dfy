/** The job sequencer (lib/jobs_sequencer.rb): turns an ordered jobs hash into a
    string of job ids, or reports a self dependency or a circular reference.

    Ruby's `sequence` interleaves the checks of a pair with its placement in
    the working list. The checks only read the hash and a failure discards the
    list, so the outcome is specified here as two separate folds: `Screen`
    finds the first pair whose checks do not pass, and `Placed` is the working
    list after every pair has been placed. The method `Sequence` runs the
    interleaved loop and is proved to agree with that specification. */
module JobsSequencer {
  import opened Seqs
  import opened JobsHash

  /** The two permissible errors of the service. */
  datatype SequencingError = SelfDependencyError | CircularReferenceError

  /** What `JobsSequencer.call` ends in. `Diverges` stands for the case where
      the recursion of `circular_dependency?` never returns (in Ruby it ends in
      a stack overflow, which is not one of the permissible errors). */
  datatype Outcome = Success(jobs: string) | Failure(error: SequencingError) | Diverges

  /** What the checks of one pair end in. `Loops` is the circular walk running
      out of fuel, which happens exactly when it would never return. */
  datatype Verdict = Accepted | Rejected(error: SequencingError) | Loops

  /** `jobs_hash[selected]`: '' is never a key, so it is always absent. */
  function Parent(jobs: seq<Entry>, selected: Token): Option<Token> {
    if selected.Empty? then None else Get(jobs, selected.id)
  }

  /** `self_dependency?`: a job may not depend on itself. */
  function SelfDependency(job: char, dep: Token): (v: Verdict)
    ensures v == Accepted || v == Rejected(SelfDependencyError)
    ensures v == Accepted <==> dep != Name(job)
  {
    if dep == Name(job) then Rejected(SelfDependencyError) else Accepted
  }

  /** `circular_dependency?`: follow the hash from `selected`; fail as soon as
      a value looked up equals the job or its dependency, stop with no error
      when a lookup finds nothing. The Ruby recursion has no bound; `fuel`
      bounds it, and `Loops` reports that the bound was reached. */
  function CircularDependency(jobs: seq<Entry>, job: char, dep: Token, selected: Token, fuel: nat): (v: Verdict)
    ensures v.Rejected? ==> v.error == CircularReferenceError
    ensures Parent(jobs, selected).None? ==> v == Accepted
    decreases fuel
  {
    match Parent(jobs, selected)
    case None => Accepted
    case Some(parent) =>
      if parent == Name(job) || parent == dep then Rejected(CircularReferenceError)
      else if fuel == 0 then Loops
      else CircularDependency(jobs, job, dep, parent, fuel - 1)
  }

  /** `errors?`: the self-dependency check first, then the circular walk from
      the dependency, with one step of fuel per entry of the hash. */
  function Errors(jobs: seq<Entry>, job: char, dep: Token): (v: Verdict)
    ensures v == Rejected(SelfDependencyError) <==> dep == Name(job)
  {
    var own := SelfDependency(job, dep);
    if own != Accepted then own
    else CircularDependency(jobs, job, dep, dep, |jobs|)
  }

  /** The verdict of the checks of the `k`-th pair. */
  function EntryVerdict(jobs: seq<Entry>, k: nat): Verdict
    requires k < |jobs|
  {
    Errors(jobs, jobs[k].0, jobs[k].1)
  }

  /** One step of the `inject`: if the job is already in the list, its
      dependency (even '') goes immediately before the job's first occurrence;
      otherwise the job, or the dependency and then the job, is appended. */
  function Place(list: seq<Token>, job: char, dep: Token): seq<Token> {
    match IndexOf(list, Name(job))
    case Some(i) => list[..i] + [dep] + list[i..]
    case None => if dep == Empty then list + [Name(job)] else list + [dep, Name(job)]
  }

  /** A job that is not yet in the list is appended, after its dependency if
      it has one. */
  lemma PlaceAppends(list: seq<Token>, job: char, dep: Token)
    requires Name(job) !in list
    ensures Place(list, job, dep) == if dep == Empty then list + [Name(job)] else list + [dep, Name(job)]
  {
  }

  /** A job already in the list gets its dependency inserted exactly at the
      job's first index: what came before stays, the rest shifts by one. */
  lemma PlaceInserts(before: seq<Token>, job: char, dep: Token, after: seq<Token>)
    requires Name(job) !in before
    ensures Place(before + [Name(job)] + after, job, dep) == before + [dep, Name(job)] + after
  {
    var list := before + [Name(job)] + after;
    assert list[..|before|] == before;
    IndexOfAt(list, Name(job), |before|);
    assert list[|before|..] == [Name(job)] + after;
  }

  /** Placing adds the job and its dependency and loses nothing. */
  lemma PlaceMembers(list: seq<Token>, job: char, dep: Token)
    ensures forall c :: Name(c) in Place(list, job, dep) <==> Name(c) in list || c == job || dep == Name(c)
  {
    match IndexOf(list, Name(job))
    case Some(i) =>
      assert list == list[..i] + list[i..];
    case None =>
  }

  /** Right after a placement, the dependency comes before the job. */
  lemma PlaceOrders(list: seq<Token>, job: char, dep: Token)
    requires dep != Empty && dep != Name(job)
    ensures IndexOf(Place(list, job, dep), dep).Some? && IndexOf(Place(list, job, dep), Name(job)).Some?
    ensures IndexOf(Place(list, job, dep), dep).value < IndexOf(Place(list, job, dep), Name(job)).value
  {
    var r := Place(list, job, dep);
    match IndexOf(list, Name(job))
    case Some(i) =>
      assert r[i] == dep && r[i + 1] == Name(job) && r[..i] == list[..i];
      IndexOfAt(r, dep, i);
      assert r[..i + 1] == list[..i] + [dep];
      IndexOfAt(r, Name(job), i + 1);
    case None =>
      IndexOfAt(r, dep, |list|);
      assert r[..|list| + 1] == list + [dep];
      IndexOfAt(r, Name(job), |list| + 1);
  }

  /** `c` is a key of the hash or the non-empty dependency of some key. */
  predicate IsId(jobs: seq<Entry>, c: char) {
    exists i :: 0 <= i < |jobs| && (jobs[i].0 == c || jobs[i].1 == Name(c))
  }

  /** The working list after every pair has been placed, in order. */
  function Placed(jobs: seq<Entry>): seq<Token> {
    if |jobs| == 0 then []
    else Place(Placed(jobs[..|jobs| - 1]), jobs[|jobs| - 1].0, jobs[|jobs| - 1].1)
  }

  /** The working list names every key and every non-empty dependency, and
      nothing else. */
  lemma {:induction false} PlacedIds(jobs: seq<Entry>)
    ensures forall c :: Name(c) in Placed(jobs) <==> IsId(jobs, c)
  {
    if |jobs| > 0 {
      var init, last := jobs[..|jobs| - 1], jobs[|jobs| - 1];
      PlacedIds(init);
      PlaceMembers(Placed(init), last.0, last.1);
      forall c ensures IsId(jobs, c) <==> IsId(init, c) || last.0 == c || last.1 == Name(c) {
        IsIdSnoc(jobs, c);
      }
    }
  }

  lemma IsIdSnoc(jobs: seq<Entry>, c: char)
    requires |jobs| > 0
    ensures IsId(jobs, c) <==>
      IsId(jobs[..|jobs| - 1], c) || jobs[|jobs| - 1].0 == c || jobs[|jobs| - 1].1 == Name(c)
  {
    var init := jobs[..|jobs| - 1];
    if IsId(jobs, c) {
      var i :| 0 <= i < |jobs| && (jobs[i].0 == c || jobs[i].1 == Name(c));
      if i < |init| { assert init[i] == jobs[i]; }
    }
    if IsId(init, c) {
      var i :| 0 <= i < |init| && (init[i].0 == c || init[i].1 == Name(c));
      assert jobs[i] == init[i];
    }
  }

  lemma PlacedExtends(jobs: seq<Entry>, i: nat)
    requires i < |jobs|
    ensures Placed(jobs[..i + 1]) == Place(Placed(jobs[..i]), jobs[i].0, jobs[i].1)
  {
    assert jobs[..i + 1][..i] == jobs[..i];
  }

  /** Ruby's `join`: the ids in order; '' contributes nothing. */
  function Join(list: seq<Token>): string {
    if |list| == 0 then ""
    else
      match list[0]
      case Empty => Join(list[1..])
      case Name(c) => [c] + Join(list[1..])
  }

  /** The joined string holds exactly the named ids, each once if the list
      holds each token once. */
  lemma {:induction false} JoinMembers(list: seq<Token>)
    ensures forall c :: c in Join(list) <==> Name(c) in list
    ensures Distinct(list) ==> Distinct(Join(list))
  {
    if |list| > 0 {
      JoinMembers(list[1..]);
      assert forall t :: t in list <==> t == list[0] || t in list[1..];
      assert Distinct(list) ==> Distinct(list[1..]) && list[0] !in list[1..];
    }
  }

  /** The first verdict, from the `from`-th pair on, that is not `Accepted`. */
  function Screen(jobs: seq<Entry>, from: nat): (v: Verdict)
    requires from <= |jobs|
    ensures v == Accepted <==> forall k :: from <= k < |jobs| ==> EntryVerdict(jobs, k) == Accepted
    ensures v != Accepted ==> exists k :: from <= k < |jobs| && EntryVerdict(jobs, k) == v &&
                                          (forall l :: from <= l < k ==> EntryVerdict(jobs, l) == Accepted)
    decreases |jobs| - from
  {
    if from == |jobs| then Accepted
    else
      var here := EntryVerdict(jobs, from);
      if here != Accepted then here else Screen(jobs, from + 1)
  }

  /** The screen stops at the first pair whose checks do not pass. */
  lemma ScreenStopsAt(jobs: seq<Entry>, i: nat)
    requires i < |jobs| && EntryVerdict(jobs, i) != Accepted
    requires forall k :: 0 <= k < i ==> EntryVerdict(jobs, k) == Accepted
    ensures Screen(jobs, 0) == EntryVerdict(jobs, i)
  {
    assert Screen(jobs, 0) != Accepted;
    var k :| 0 <= k < |jobs| && EntryVerdict(jobs, k) == Screen(jobs, 0) &&
             (forall l :: 0 <= l < k ==> EntryVerdict(jobs, l) == Accepted);
    assert !(k < i) && !(i < k);
  }

  /** The outcome of `JobsSequencer.call` on the hash `jobs`. On success the
      string holds every key and every non-empty dependency, each once. */
  function Sequenced(jobs: seq<Entry>): (r: Outcome)
    ensures r.Success? ==> Distinct(r.jobs) && forall c :: c in r.jobs <==> IsId(jobs, c)
  {
    match Screen(jobs, 0)
    case Accepted =>
      PlacedIds(jobs);
      UniqFacts(Placed(jobs));
      JoinMembers(Uniq(Placed(jobs)));
      Success(Join(Uniq(Placed(jobs))))
    case Rejected(e) => Failure(e)
    case Loops => Diverges
  }

  /** `call` and `sequence`: the `inject` over the hash, mutating the working
      list, then `uniq` and `join`. The first failing check ends the call. */
  method Sequence(jobs: seq<Entry>) returns (r: Outcome)
    ensures r == Sequenced(jobs)
  {
    var list: seq<Token> := [];
    var i := 0;
    while i < |jobs|
      invariant i <= |jobs|
      invariant list == Placed(jobs[..i])
      invariant Screen(jobs, 0) == Screen(jobs, i)
    {
      var job, dep := jobs[i].0, jobs[i].1;
      var verdict := Errors(jobs, job, dep);
      assert verdict == EntryVerdict(jobs, i);
      if verdict != Accepted {
        r := if verdict.Loops? then Diverges else Failure(verdict.error);
        return;
      }
      PlacedExtends(jobs, i);
      var at := IndexOf(list, Name(job));
      if at.Some? {
        list := list[..at.value] + [dep] + list[at.value..];
      } else if dep == Empty {
        list := list + [Name(job)];
      } else {
        list := list + [dep, Name(job)];
      }
      i := i + 1;
    }
    assert jobs[..i] == jobs;
    r := Success(Join(Uniq(list)));
  }
}
