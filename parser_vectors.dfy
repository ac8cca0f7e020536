/** The parser's documented cases, as in spec/lib/jobs_parser_spec.rb. The
    test strings are single-quoted Ruby literals, so each `\n` in them is a
    backslash followed by `n`, not a line break. */
module ParserVectors {
  import opened Seqs
  import opened JobsHash
  import opened JobsParser

  // nil is not a string: validation fails.
  lemma NilRejected()
    ensures !Valid(None)
  {
  }

  // 'hello world' is a string with no `x => ` in it: validation fails.
  lemma HelloWorldRejected()
    ensures !Valid(Some("hello world"))
  {
  }

  // '' is valid and parses to {}.
  lemma EmptyParsed()
    ensures Valid(Some("")) && Collected(ScanFrom("", 0)) == []
  {
  }

  // 'a => \nb => \nc => ' gives {'a' => '', 'b' => '', 'c' => ''}.

  lemma NoDependenciesScanned()
    ensures ScanFrom("a => \\nb => \\nc => ", 0) == [('a', Empty), ('b', Empty), ('c', Empty)]
  {
  }

  lemma NoDependenciesParsed()
    ensures Valid(Some("a => \\nb => \\nc => "))
    ensures Collected(ScanFrom("a => \\nb => \\nc => ", 0)) == [('a', Empty), ('b', Empty), ('c', Empty)]
  {
    NoDependenciesScanned();
    assert PairAt("a => \\nb => \\nc => ", 0);
    CollectedDistinct([('a', Empty), ('b', Empty), ('c', Empty)]);
  }

  // 'a => b\nb => c\nc => d' gives {'a' => 'b', 'b' => 'c', 'c' => 'd'}.

  lemma AllDependenciesScanned()
    ensures ScanFrom("a => b\\nb => c\\nc => d", 0) == [('a', Name('b')), ('b', Name('c')), ('c', Name('d'))]
  {
  }

  lemma AllDependenciesParsed()
    ensures Valid(Some("a => b\\nb => c\\nc => d"))
    ensures Collected(ScanFrom("a => b\\nb => c\\nc => d", 0)) == [('a', Name('b')), ('b', Name('c')), ('c', Name('d'))]
  {
    AllDependenciesScanned();
    assert PairAt("a => b\\nb => c\\nc => d", 0);
    CollectedDistinct([('a', Name('b')), ('b', Name('c')), ('c', Name('d'))]);
  }

  // 'a => b\nb => \nc => d' gives {'a' => 'b', 'b' => '', 'c' => 'd'}.

  lemma SomeDependenciesScanned()
    ensures ScanFrom("a => b\\nb => \\nc => d", 0) == [('a', Name('b')), ('b', Empty), ('c', Name('d'))]
  {
  }

  lemma SomeDependenciesParsed()
    ensures Valid(Some("a => b\\nb => \\nc => d"))
    ensures Collected(ScanFrom("a => b\\nb => \\nc => d", 0)) == [('a', Name('b')), ('b', Empty), ('c', Name('d'))]
  {
    SomeDependenciesScanned();
    assert PairAt("a => b\\nb => \\nc => d", 0);
    CollectedDistinct([('a', Name('b')), ('b', Empty), ('c', Name('d'))]);
  }

  // 'a => b\na => c\nb => ': the repeated key keeps its first place and
  // takes the last value, giving {'a' => 'c', 'b' => ''}.

  lemma RepeatedKeyScanned()
    ensures ScanFrom("a => b\\na => c\\nb => ", 0) == [('a', Name('b')), ('a', Name('c')), ('b', Empty)]
  {
  }

  lemma RepeatedKeyCollected(pairs: seq<Entry>)
    requires pairs == [('a', Name('b')), ('a', Name('c')), ('b', Empty)]
    ensures Collected(pairs) == [('a', Name('c')), ('b', Empty)]
  {
    assert pairs[..2][..1] == [('a', Name('b'))];
    assert Collected(pairs[..2][..1]) == [('a', Name('b'))];
    StoreExisting([('a', Name('b'))], 0, Name('c'));
    assert Collected(pairs[..2]) == [('a', Name('c'))];
    StoreNew([('a', Name('c'))], 'b', Empty);
  }

  lemma RepeatedKeyParsed()
    ensures Collected(ScanFrom("a => b\\na => c\\nb => ", 0)) == [('a', Name('c')), ('b', Empty)]
  {
    RepeatedKeyScanned();
    RepeatedKeyCollected([('a', Name('b')), ('a', Name('c')), ('b', Empty)]);
  }
}
