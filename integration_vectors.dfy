/** The end-to-end examples of spec/lib/integration_spec.rb: a string of jobs
    parsed by the parser and the resulting hash sequenced. As in the parser's
    examples, each `\n` is a backslash followed by `n`. */
module IntegrationVectors {
  import opened Seqs
  import opened JobsHash
  import opened JobsParser
  import opened JobsSequencer
  import opened SequencerVectors

  const AcbText: string := "a => \\nb => c\\nc => "
  const ThreeText: string := "a => \\nb => \\nc => "
  const SelfText: string := "a => \\nb => \\nc => c"
  const SixText: string := "a => \\nb => c\\nc => f\\nd => a\\ne => b\\nf => "
  const CircularText: string := "a => \\nb => c\\nc => f\\nd => a\\ne => \\nf => b"

  /** Any hash written in the text format reaches the sequencer unchanged:
      parsing its text and sequencing the result is sequencing the hash. */
  lemma RenderedSequenced(jobs: seq<Entry>)
    requires WellFormed(jobs) && DistinctKeys(jobs)
    ensures Valid(Some(Render(jobs)))
    ensures Sequenced(Collected(ScanFrom(Render(jobs), 0))) == Sequenced(jobs)
  {
    ParseRender(jobs);
  }

  // '' gives ''.
  lemma EmptyText()
    ensures Valid(Some("")) && Sequenced(Collected(ScanFrom("", 0))) == Success("")
  {
  }

  lemma SingleRendered()
    ensures Render([('a', Empty)]) == "a => "
  {
  }

  // 'a => ' gives 'a'.
  lemma SingleText()
    ensures Valid(Some("a => ")) && Sequenced(Collected(ScanFrom("a => ", 0))) == Success("a")
  {
    SingleRendered();
    RenderedSequenced([('a', Empty)]);
    SingleJob();
  }

  lemma ThreeRendered()
    ensures Render(ThreeJobs) == ThreeText
  {
  }

  // 'a => \nb => \nc => ' gives a sequence of the three jobs.
  lemma ThreeTextSequenced()
    ensures Valid(Some(ThreeText))
    ensures Sequenced(Collected(ScanFrom(ThreeText, 0))) == Success("abc")
  {
    ThreeRendered();
    RenderedSequenced(ThreeJobs);
    ThreeSequenced();
  }

  lemma AcbRendered()
    ensures Render(AcbJobs) == AcbText
  {
  }

  // 'a => \nb => c\nc => ' gives 'acb'.
  lemma AcbTextSequenced()
    ensures Valid(Some(AcbText)) && Sequenced(Collected(ScanFrom(AcbText, 0))) == Success("acb")
  {
    AcbRendered();
    assert Keys(AcbJobs) == "abc";
    RenderedSequenced(AcbJobs);
    Acb();
  }

  const SelfTextJobs: seq<Entry> := [('a', Empty), ('b', Empty), ('c', Name('c'))]

  lemma SelfRendered()
    ensures Render(SelfTextJobs) == SelfText
  {
  }

  lemma SelfTextJobsSequenced()
    ensures Sequenced(SelfTextJobs) == Failure(SelfDependencyError)
  {
    assert EntryVerdict(SelfTextJobs, 0) == Accepted && EntryVerdict(SelfTextJobs, 1) == Accepted;
    ScreenStopsAt(SelfTextJobs, 2);
  }

  // 'a => \nb => \nc => c' fails with a SelfDependencyError.
  lemma SelfTextSequenced()
    ensures Valid(Some(SelfText))
    ensures Sequenced(Collected(ScanFrom(SelfText, 0))) == Failure(SelfDependencyError)
  {
    SelfRendered();
    RenderedSequenced(SelfTextJobs);
    SelfTextJobsSequenced();
  }

  /** The six-job text, split at its `\n`s into the lines of its entries. */
  lemma SixTextLines()
    ensures SixText == "a => " + "\\n" + ("b => c" + "\\n" + ("c => f" + "\\n" + ("d => a" + "\\n" + ("e => b" + "\\n" + "f => "))))
  {
  }

  lemma SixTailRendered(jobs: seq<Entry>)
    requires jobs == SixJobs
    ensures Render(jobs[3..]) == "d => a" + "\\n" + ("e => b" + "\\n" + "f => ")
  {
    assert Render(jobs[5..]) == "f => ";
    assert Render(jobs[4..]) == "e => b" + "\\n" + "f => ";
  }

  lemma SixWellFormed()
    ensures WellFormed(SixJobs) && DistinctKeys(SixJobs)
  {
    assert Keys(SixJobs) == "abcdef";
  }

  lemma SixRendered(jobs: seq<Entry>)
    requires jobs == SixJobs
    ensures Render(jobs) == SixText
  {
    SixTailRendered(jobs);
    assert Render(jobs[2..]) == "c => f" + "\\n" + ("d => a" + "\\n" + ("e => b" + "\\n" + "f => "));
    assert Render(jobs[1..]) == "b => c" + "\\n" + ("c => f" + "\\n" + ("d => a" + "\\n" + ("e => b" + "\\n" + "f => ")));
    SixTextLines();
  }

  // 'a => \nb => c\nc => f\nd => a\ne => b\nf => ' gives 'afcbde'.
  lemma SixTextSequenced()
    ensures Valid(Some(SixText))
    ensures Sequenced(Collected(ScanFrom(SixText, 0))) == Success("afcbde")
  {
    SixRendered(SixJobs);
    SixWellFormed();
    RenderedSequenced(SixJobs);
    Afcbde();
  }

  /** The circular text, split at its `\n`s into the lines of its entries. */
  lemma CircularTextLines()
    ensures CircularText == "a => " + "\\n" + ("b => c" + "\\n" + ("c => f" + "\\n" + ("d => a" + "\\n" + ("e => " + "\\n" + "f => b"))))
  {
  }

  lemma CircularTailRendered(jobs: seq<Entry>)
    requires jobs == CircularJobs
    ensures Render(jobs[3..]) == "d => a" + "\\n" + ("e => " + "\\n" + "f => b")
  {
    assert Render(jobs[5..]) == "f => b";
    assert Render(jobs[4..]) == "e => " + "\\n" + "f => b";
  }

  lemma CircularWellFormed()
    ensures WellFormed(CircularJobs) && DistinctKeys(CircularJobs)
  {
    assert Keys(CircularJobs) == "abcdef";
  }

  lemma CircularRendered(jobs: seq<Entry>)
    requires jobs == CircularJobs
    ensures Render(jobs) == CircularText
  {
    CircularTailRendered(jobs);
    assert Render(jobs[2..]) == "c => f" + "\\n" + ("d => a" + "\\n" + ("e => " + "\\n" + "f => b"));
    assert Render(jobs[1..]) == "b => c" + "\\n" + ("c => f" + "\\n" + ("d => a" + "\\n" + ("e => " + "\\n" + "f => b")));
    CircularTextLines();
  }

  // 'a => \nb => c\nc => f\nd => a\ne => \nf => b' fails with a
  // CircularReferenceError.
  lemma CircularTextSequenced()
    ensures Valid(Some(CircularText))
    ensures Sequenced(Collected(ScanFrom(CircularText, 0))) == Failure(CircularReferenceError)
  {
    CircularRendered(CircularJobs);
    CircularWellFormed();
    RenderedSequenced(CircularJobs);
    CircularReferenceReported();
  }
}
