/** The examples of spec/lib/job_sequencer_spec.rb and of the comments in
    lib/jobs_sequencer.rb, worked through the model, together with three
    hashes that show what the code does beyond those examples: the reported
    error depends on entry order, a successful sequence need not put a
    dependency first, and the circular walk can fail to terminate.

    Each example is split into small computations (lookups, walks, single
    placement steps, `uniq`, `join`) that the bridging lemmas below put
    together. */
module SequencerVectors {
  import opened Seqs
  import opened JobsHash
  import opened JobsSequencer
  import opened CircularWalk
  import opened SequencerProperties

  const AcbJobs: seq<Entry> := [('a', Empty), ('b', Name('c')), ('c', Empty)]
  const CbaJobs: seq<Entry> := [('a', Name('b')), ('b', Name('c'))]
  const SixJobs: seq<Entry> :=
    [('a', Empty), ('b', Name('c')), ('c', Name('f')), ('d', Name('a')), ('e', Name('b')), ('f', Empty)]
  const SelfJobs: seq<Entry> := [('a', Empty), ('b', Name('b')), ('c', Empty)]
  const CircularJobs: seq<Entry> :=
    [('a', Empty), ('b', Name('c')), ('c', Name('f')), ('d', Name('a')), ('e', Empty), ('f', Name('b'))]
  const UnorderedJobs: seq<Entry> := [('y', Name('x')), ('d', Name('e')), ('x', Name('d')), ('e', Empty)]
  const EndlessJobs: seq<Entry> := [('x', Name('a')), ('a', Name('b')), ('b', Name('c')), ('c', Name('b'))]

  /** Every pair passes its checks, the working list is `list`, and `uniq`
      and `join` make `s` of it: the call succeeds with `s`. */
  lemma Succeeds(jobs: seq<Entry>, list: seq<Token>, s: string)
    requires Screen(jobs, 0) == Accepted && Placed(jobs) == list && Join(Uniq(list)) == s
    ensures Sequenced(jobs) == Success(s)
  {
  }

  /** A pair that passes its checks, followed by an accepted rest. */
  lemma ScreenFrom(jobs: seq<Entry>, i: nat)
    requires i < |jobs| && EntryVerdict(jobs, i) == Accepted && Screen(jobs, i + 1) == Accepted
    ensures Screen(jobs, i) == Accepted
  {
  }

  /** One step of the circular walk past a parent that is neither the job nor
      its dependency. */
  lemma WalkStep(jobs: seq<Entry>, job: char, dep: Token, selected: Token, fuel: nat, parent: Token)
    requires Parent(jobs, selected) == Some(parent) && parent != Name(job) && parent != dep && fuel > 0
    ensures CircularDependency(jobs, job, dep, selected, fuel) == CircularDependency(jobs, job, dep, parent, fuel - 1)
  {
  }

  /** One placement step from a known working list. */
  lemma PlacedThrough(jobs: seq<Entry>, i: nat, before: seq<Token>, after: seq<Token>)
    requires i < |jobs| && Placed(jobs[..i]) == before
    requires Place(before, jobs[i].0, jobs[i].1) == after
    ensures Placed(jobs[..i + 1]) == after
  {
    PlacedExtends(jobs, i);
  }

  /** The first and last placement steps. */
  lemma PlacedFirst(jobs: seq<Entry>, after: seq<Token>)
    requires 0 < |jobs| && Place([], jobs[0].0, jobs[0].1) == after
    ensures Placed(jobs[..1]) == after
  {
    assert jobs[..0] == [];
    PlacedExtends(jobs, 0);
  }

  lemma PlacedLast(jobs: seq<Entry>, before: seq<Token>, after: seq<Token>)
    requires 0 < |jobs| && Placed(jobs[..|jobs| - 1]) == before
    requires Place(before, jobs[|jobs| - 1].0, jobs[|jobs| - 1].1) == after
    ensures Placed(jobs) == after
  {
    PlacedExtends(jobs, |jobs| - 1);
    assert jobs[..|jobs|] == jobs;
  }

  /** One more element of `s` through `uniq`. */
  lemma UniqThrough<T>(s: seq<T>, i: nat, before: seq<T>)
    requires i < |s| && Uniq(s[..i]) == before
    ensures Uniq(s[..i + 1]) == if s[i] in before then before else before + [s[i]]
  {
    assert s[..i + 1] == s[..i] + [s[i]];
    UniqSnoc(s[..i], s[i]);
  }

  // {} gives ''.
  lemma NoJobs()
    ensures Sequenced([]) == Success("")
  {
  }

  // {'a' => ''} gives 'a'.
  lemma SingleJob()
    ensures Sequenced([('a', Empty)]) == Success("a")
  {
  }

  const ThreeJobs: seq<Entry> := [('a', Empty), ('b', Empty), ('c', Empty)]

  // {'a' => '', 'b' => '', 'c' => ''} gives 'abc'.
  lemma ThreeSequenced()
    ensures Sequenced(ThreeJobs) == Success("abc")
  {
    assert Keys(ThreeJobs) == "abc";
    NoDependencies(ThreeJobs);
  }

  // {'a' => '', 'b' => 'c', 'c' => ''} gives 'acb'.

  lemma AcbScreen()
    ensures Screen(AcbJobs, 0) == Accepted
  {
    assert Get(AcbJobs, 'c') == Some(Empty);
  }

  lemma AcbPlaced(jobs: seq<Entry>)
    requires jobs == AcbJobs
    ensures Placed(jobs) == [Name('a'), Empty, Name('c'), Name('b')]
  {
    PlacedFirst(jobs, [Name('a')]);
    PlacedThrough(jobs, 1, [Name('a')], [Name('a'), Name('c'), Name('b')]);
    PlacedLast(jobs, [Name('a'), Name('c'), Name('b')], [Name('a'), Empty, Name('c'), Name('b')]);
  }

  lemma AcbJoined()
    ensures Join(Uniq([Name('a'), Empty, Name('c'), Name('b')])) == "acb"
  {
    UniqOfDistinct([Name('a'), Empty, Name('c'), Name('b')]);
  }

  lemma Acb()
    ensures Sequenced(AcbJobs) == Success("acb")
  {
    AcbScreen();
    AcbPlaced(AcbJobs);
    AcbJoined();
    Succeeds(AcbJobs, [Name('a'), Empty, Name('c'), Name('b')], "acb");
  }

  // {'a' => 'b', 'b' => 'c'} gives 'cba'.

  lemma CbaScreen()
    ensures Screen(CbaJobs, 0) == Accepted
  {
    assert Get(CbaJobs, 'b') == Some(Name('c'));
    assert Get(CbaJobs, 'c') == None;
  }

  lemma CbaPlaced(jobs: seq<Entry>)
    requires jobs == CbaJobs
    ensures Placed(jobs) == [Name('c'), Name('b'), Name('a')]
  {
    PlacedFirst(jobs, [Name('b'), Name('a')]);
    PlacedLast(jobs, [Name('b'), Name('a')], [Name('c'), Name('b'), Name('a')]);
  }

  lemma CbaJoined()
    ensures Join(Uniq([Name('c'), Name('b'), Name('a')])) == "cba"
  {
    UniqOfDistinct([Name('c'), Name('b'), Name('a')]);
  }

  lemma Cba()
    ensures Sequenced(CbaJobs) == Success("cba")
  {
    CbaScreen();
    CbaPlaced(CbaJobs);
    CbaJoined();
    Succeeds(CbaJobs, [Name('c'), Name('b'), Name('a')], "cba");
  }

  // {'a' => '', 'b' => 'c', 'c' => 'f', 'd' => 'a', 'e' => 'b', 'f' => ''} gives 'afcbde'.

  lemma SixKeys()
    ensures Keys(SixJobs) == "abcdef"
  {
  }

  lemma SixLookupA()
    ensures Get(SixJobs, 'a') == Some(Empty)
  {
    SixKeys();
  }

  lemma SixLookupB()
    ensures Get(SixJobs, 'b') == Some(Name('c'))
  {
    SixKeys();
  }

  lemma SixLookupC()
    ensures Get(SixJobs, 'c') == Some(Name('f'))
  {
    SixKeys();
  }

  lemma SixLookupF()
    ensures Get(SixJobs, 'f') == Some(Empty)
  {
    SixKeys();
  }

  lemma SixWalkB(jobs: seq<Entry>)
    requires jobs == SixJobs
    ensures EntryVerdict(jobs, 1) == Accepted
  {
    SixLookupC();
    SixLookupF();
    WalkStep(jobs, 'b', Name('c'), Name('c'), 6, Name('f'));
    WalkStep(jobs, 'b', Name('c'), Name('f'), 5, Empty);
  }

  lemma SixWalkC(jobs: seq<Entry>)
    requires jobs == SixJobs
    ensures EntryVerdict(jobs, 2) == Accepted
  {
    SixLookupF();
    WalkStep(jobs, 'c', Name('f'), Name('f'), 6, Empty);
  }

  lemma SixWalkD(jobs: seq<Entry>)
    requires jobs == SixJobs
    ensures EntryVerdict(jobs, 3) == Accepted
  {
    SixLookupA();
    WalkStep(jobs, 'd', Name('a'), Name('a'), 6, Empty);
  }

  lemma SixWalkE(jobs: seq<Entry>)
    requires jobs == SixJobs
    ensures EntryVerdict(jobs, 4) == Accepted
  {
    SixLookupB();
    SixLookupC();
    SixLookupF();
    WalkStep(jobs, 'e', Name('b'), Name('b'), 6, Name('c'));
    WalkStep(jobs, 'e', Name('b'), Name('c'), 5, Name('f'));
    WalkStep(jobs, 'e', Name('b'), Name('f'), 4, Empty);
  }

  lemma SixScreen(jobs: seq<Entry>)
    requires jobs == SixJobs
    ensures Screen(jobs, 0) == Accepted
  {
    SixWalkB(jobs);
    SixWalkC(jobs);
    SixWalkD(jobs);
    SixWalkE(jobs);
    assert EntryVerdict(jobs, 0) == Accepted && EntryVerdict(jobs, 5) == Accepted;
    ScreenFrom(jobs, 5);
    ScreenFrom(jobs, 4);
    ScreenFrom(jobs, 3);
    ScreenFrom(jobs, 2);
    ScreenFrom(jobs, 1);
    ScreenFrom(jobs, 0);
  }

  lemma SixSteps()
    ensures Place([Name('a')], 'b', Name('c')) == [Name('a'), Name('c'), Name('b')]
    ensures Place([Name('a'), Name('c'), Name('b')], 'c', Name('f')) == [Name('a'), Name('f'), Name('c'), Name('b')]
    ensures Place([Name('a'), Name('f'), Name('c'), Name('b')], 'd', Name('a')) ==
      [Name('a'), Name('f'), Name('c'), Name('b'), Name('a'), Name('d')]
  {
  }

  lemma SixLaterSteps()
    ensures Place([Name('a'), Name('f'), Name('c'), Name('b'), Name('a'), Name('d')], 'e', Name('b')) ==
      [Name('a'), Name('f'), Name('c'), Name('b'), Name('a'), Name('d'), Name('b'), Name('e')]
    ensures Place([Name('a'), Name('f'), Name('c'), Name('b'), Name('a'), Name('d'), Name('b'), Name('e')], 'f', Empty) ==
      [Name('a'), Empty, Name('f'), Name('c'), Name('b'), Name('a'), Name('d'), Name('b'), Name('e')]
  {
  }

  lemma SixPlaced(jobs: seq<Entry>)
    requires jobs == SixJobs
    ensures Placed(jobs) == [Name('a'), Empty, Name('f'), Name('c'), Name('b'), Name('a'), Name('d'), Name('b'), Name('e')]
  {
    SixSteps();
    SixLaterSteps();
    var l3 := [Name('a'), Name('f'), Name('c'), Name('b')];
    var l4 := l3 + [Name('a'), Name('d')];
    var l5 := l4 + [Name('b'), Name('e')];
    PlacedFirst(jobs, [Name('a')]);
    PlacedThrough(jobs, 1, [Name('a')], [Name('a'), Name('c'), Name('b')]);
    PlacedThrough(jobs, 2, [Name('a'), Name('c'), Name('b')], l3);
    PlacedThrough(jobs, 3, l3, l4);
    PlacedThrough(jobs, 4, l4, l5);
    PlacedLast(jobs, l5, [Name('a'), Empty, Name('f'), Name('c'), Name('b'), Name('a'), Name('d'), Name('b'), Name('e')]);
  }

  lemma SixUniqFirst(list: seq<Token>)
    requires list == [Name('a'), Empty, Name('f'), Name('c'), Name('b'), Name('a'), Name('d'), Name('b'), Name('e')]
    ensures Uniq(list[..5]) == [Name('a'), Empty, Name('f'), Name('c'), Name('b')]
  {
    var first := [Name('a'), Empty, Name('f'), Name('c'), Name('b')];
    assert list[..5] == first;
    UniqOfDistinct(first);
  }

  lemma SixUniqHalf(list: seq<Token>)
    requires list == [Name('a'), Empty, Name('f'), Name('c'), Name('b'), Name('a'), Name('d'), Name('b'), Name('e')]
    ensures Uniq(list[..7]) == [Name('a'), Empty, Name('f'), Name('c'), Name('b'), Name('d')]
  {
    var first := [Name('a'), Empty, Name('f'), Name('c'), Name('b')];
    SixUniqFirst(list);
    UniqThrough(list, 5, first);
    UniqThrough(list, 6, first);
  }

  lemma SixUniq(list: seq<Token>)
    requires list == [Name('a'), Empty, Name('f'), Name('c'), Name('b'), Name('a'), Name('d'), Name('b'), Name('e')]
    ensures Uniq(list) == [Name('a'), Empty, Name('f'), Name('c'), Name('b'), Name('d'), Name('e')]
  {
    var six := [Name('a'), Empty, Name('f'), Name('c'), Name('b'), Name('d')];
    SixUniqHalf(list);
    UniqThrough(list, 7, six);
    UniqThrough(list, 8, six);
    assert list[..9] == list;
  }

  lemma SixJoined()
    ensures Join(Uniq([Name('a'), Empty, Name('f'), Name('c'), Name('b'), Name('a'), Name('d'), Name('b'), Name('e')])) == "afcbde"
  {
    SixUniq([Name('a'), Empty, Name('f'), Name('c'), Name('b'), Name('a'), Name('d'), Name('b'), Name('e')]);
  }

  lemma Afcbde()
    ensures Sequenced(SixJobs) == Success("afcbde")
  {
    SixScreen(SixJobs);
    SixPlaced(SixJobs);
    SixJoined();
    Succeeds(SixJobs, [Name('a'), Empty, Name('f'), Name('c'), Name('b'), Name('a'), Name('d'), Name('b'), Name('e')], "afcbde");
  }

  // {'a' => '', 'b' => 'b', 'c' => ''} fails with a SelfDependencyError.
  lemma SelfDependencyReported()
    ensures Sequenced(SelfJobs) == Failure(SelfDependencyError)
  {
  }

  // {'a' => '', 'b' => 'c', 'c' => 'f', 'd' => 'a', 'e' => '', 'f' => 'b'}
  // fails with a CircularReferenceError, found on the pair of 'b'.

  lemma CircularLookups()
    ensures Get(CircularJobs, 'c') == Some(Name('f')) && Get(CircularJobs, 'f') == Some(Name('b'))
  {
    assert Keys(CircularJobs) == "abcdef";
  }

  lemma CircularWalkB()
    ensures EntryVerdict(CircularJobs, 1) == Rejected(CircularReferenceError)
  {
    CircularLookups();
    assert CircularDependency(CircularJobs, 'b', Name('c'), Name('f'), 5) == Rejected(CircularReferenceError);
  }

  lemma CircularReferenceReported()
    ensures Sequenced(CircularJobs) == Failure(CircularReferenceError)
  {
    CircularWalkB();
    assert EntryVerdict(CircularJobs, 0) == Accepted;
    ScreenStopsAt(CircularJobs, 1);
  }

  /** The same two entries in the two orders give the two errors. */
  lemma ErrorDependsOnOrder()
    ensures Sequenced([('x', Name('z')), ('z', Name('z'))]) == Failure(CircularReferenceError)
    ensures Sequenced([('z', Name('z')), ('x', Name('z'))]) == Failure(SelfDependencyError)
  {
  }

  // {'y' => 'x', 'd' => 'e', 'x' => 'd', 'e' => ''} gives 'dxye': 'd'
  // depends on 'e' and yet comes first.

  lemma UnorderedKeys()
    ensures Keys(UnorderedJobs) == "ydxe"
  {
  }

  lemma UnorderedLookupX()
    ensures Get(UnorderedJobs, 'x') == Some(Name('d'))
  {
    UnorderedKeys();
  }

  lemma UnorderedLookupD()
    ensures Get(UnorderedJobs, 'd') == Some(Name('e'))
  {
    UnorderedKeys();
  }

  lemma UnorderedLookupE()
    ensures Get(UnorderedJobs, 'e') == Some(Empty)
  {
    UnorderedKeys();
  }

  lemma UnorderedWalkY()
    ensures EntryVerdict(UnorderedJobs, 0) == Accepted
  {
    UnorderedLookupX();
    UnorderedLookupD();
    UnorderedLookupE();
    assert CircularDependency(UnorderedJobs, 'y', Name('x'), Name('e'), 2) == Accepted;
    assert CircularDependency(UnorderedJobs, 'y', Name('x'), Name('x'), 4) == Accepted;
  }

  lemma UnorderedWalkD()
    ensures EntryVerdict(UnorderedJobs, 1) == Accepted
  {
    UnorderedLookupE();
  }

  lemma UnorderedWalkX()
    ensures EntryVerdict(UnorderedJobs, 2) == Accepted
  {
    UnorderedLookupD();
    UnorderedLookupE();
    assert CircularDependency(UnorderedJobs, 'x', Name('d'), Name('e'), 3) == Accepted;
  }

  lemma UnorderedScreen()
    ensures Screen(UnorderedJobs, 0) == Accepted
  {
    UnorderedWalkY();
    UnorderedWalkD();
    UnorderedWalkX();
    assert EntryVerdict(UnorderedJobs, 3) == Accepted;
    forall k | 0 <= k < |UnorderedJobs| ensures EntryVerdict(UnorderedJobs, k) == Accepted {
    }
  }

  lemma UnorderedSteps()
    ensures Place([Name('x'), Name('y')], 'd', Name('e')) == [Name('x'), Name('y'), Name('e'), Name('d')]
    ensures Place([Name('x'), Name('y'), Name('e'), Name('d')], 'x', Name('d')) ==
      [Name('d'), Name('x'), Name('y'), Name('e'), Name('d')]
  {
  }

  lemma UnorderedLastStep()
    ensures Place([Name('d'), Name('x'), Name('y'), Name('e'), Name('d')], 'e', Empty) ==
      [Name('d'), Name('x'), Name('y'), Empty, Name('e'), Name('d')]
  {
  }

  lemma UnorderedPlaced(jobs: seq<Entry>)
    requires jobs == UnorderedJobs
    ensures Placed(jobs) == [Name('d'), Name('x'), Name('y'), Empty, Name('e'), Name('d')]
  {
    UnorderedSteps();
    UnorderedLastStep();
    PlacedFirst(jobs, [Name('x'), Name('y')]);
    PlacedThrough(jobs, 1, [Name('x'), Name('y')], [Name('x'), Name('y'), Name('e'), Name('d')]);
    PlacedThrough(jobs, 2, [Name('x'), Name('y'), Name('e'), Name('d')], [Name('d'), Name('x'), Name('y'), Name('e'), Name('d')]);
    PlacedLast(jobs, [Name('d'), Name('x'), Name('y'), Name('e'), Name('d')], [Name('d'), Name('x'), Name('y'), Empty, Name('e'), Name('d')]);
  }

  lemma UnorderedUniq(list: seq<Token>)
    requires list == [Name('d'), Name('x'), Name('y'), Empty, Name('e'), Name('d')]
    ensures Uniq(list) == [Name('d'), Name('x'), Name('y'), Empty, Name('e')]
  {
    var first := [Name('d'), Name('x'), Name('y'), Empty, Name('e')];
    assert list[..5] == first;
    UniqOfDistinct(first);
    UniqThrough(list, 5, first);
    assert list[..6] == list;
  }

  lemma UnorderedJoined()
    ensures Join(Uniq([Name('d'), Name('x'), Name('y'), Empty, Name('e'), Name('d')])) == "dxye"
  {
    UnorderedUniq([Name('d'), Name('x'), Name('y'), Empty, Name('e'), Name('d')]);
  }

  lemma DependencyAfterJob()
    ensures Sequenced(UnorderedJobs) == Success("dxye")
  {
    UnorderedScreen();
    UnorderedPlaced(UnorderedJobs);
    UnorderedJoined();
    Succeeds(UnorderedJobs, [Name('d'), Name('x'), Name('y'), Empty, Name('e'), Name('d')], "dxye");
  }

  // {'x' => 'a', 'a' => 'b', 'b' => 'c', 'c' => 'b'}: the walk for 'x' goes
  // a, b, c, b, c, ... and never meets 'x' or 'a'.

  lemma EndlessLookups()
    ensures Get(EndlessJobs, 'a') == Some(Name('b')) && Get(EndlessJobs, 'b') == Some(Name('c'))
    ensures Get(EndlessJobs, 'c') == Some(Name('b'))
  {
    assert Keys(EndlessJobs) == "xabc";
  }

  lemma EndlessWalk()
    ensures Sequenced(EndlessJobs) == Diverges
    ensures forall fuel :: CircularDependency(EndlessJobs, 'x', Name('a'), Name('a'), fuel) == Loops
  {
    EndlessLookups();
    assert CircularDependency(EndlessJobs, 'x', Name('a'), Name('c'), 0) == Loops;
    assert CircularDependency(EndlessJobs, 'x', Name('a'), Name('b'), 1) == Loops;
    assert CircularDependency(EndlessJobs, 'x', Name('a'), Name('c'), 2) == Loops;
    assert CircularDependency(EndlessJobs, 'x', Name('a'), Name('a'), 4) == Loops;
    assert EntryVerdict(EndlessJobs, 0) == Loops;
    forall fuel: nat ensures CircularDependency(EndlessJobs, 'x', Name('a'), Name('a'), fuel) == Loops {
      LoopsForever(EndlessJobs, 'x', Name('a'), Name('a'), fuel);
    }
  }
}
