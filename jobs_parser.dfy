/** The jobs parser (lib/jobs_parser.rb): validates a string of jobs and turns
    it into the ordered jobs hash.

    Ruby's `scan(/(\w) => (\w|)/)` finds the leftmost match, resumes right
    after it, and moves on by one character where nothing matches; the match
    itself is a word character, the four characters " => " and then one more
    word character if there is one (the alternative is tried first), else ''.
    `ScanFrom` is that scan as a function and `Scan` is the scanning loop.
    `Collected` is the `each_with_object` fold of the matches into a hash,
    and `Parse` is its loop. */
module JobsParser {
  import opened Seqs
  import opened JobsHash

  /** The outcome of `JobsParser.call`: the jobs hash, or the validation
      failure. */
  datatype ParseOutcome = Parsed(jobs: seq<Entry>) | Invalid

  /** Ruby's `\w` on ASCII text. */
  predicate IsWord(c: char) {
    ('a' <= c <= 'z') || ('A' <= c <= 'Z') || ('0' <= c <= '9') || c == '_'
  }

  /** A key or a value that the regular expression can capture. */
  predicate WordToken(t: Token) {
    t.Name? ==> IsWord(t.id)
  }

  /** Every key and every value is a capture of the regular expression. */
  predicate WellFormed(hash: seq<Entry>) {
    forall e :: e in hash ==> IsWord(e.0) && WordToken(e.1)
  }

  /** The regular expression matches at position `p`. */
  predicate PairAt(s: string, p: nat) {
    p + 5 <= |s| && IsWord(s[p]) && s[p + 1] == ' ' && s[p + 2] == '=' && s[p + 3] == '>' && s[p + 4] == ' '
  }

  /** The second capture of the match at `p`: greedy, so a word character
      when one follows, else ''. */
  function ValueAt(s: string, p: nat): (t: Token)
    requires PairAt(s, p)
    ensures WordToken(t)
    ensures t.Name? <==> p + 5 < |s| && IsWord(s[p + 5])
  {
    if p + 5 < |s| && IsWord(s[p + 5]) then Name(s[p + 5]) else Empty
  }

  /** Where the scan resumes after the match at `p`. */
  function PairEnd(s: string, p: nat): (q: nat)
    requires PairAt(s, p)
    ensures p + 5 <= q <= |s|
  {
    if ValueAt(s, p).Name? then p + 6 else p + 5
  }

  /** `scan` from position `p` on: the captured pairs, in order. */
  function ScanFrom(s: string, p: nat): (pairs: seq<Entry>)
    requires p <= |s|
    ensures WellFormed(pairs)
    decreases |s| - p
  {
    if p == |s| then []
    else if PairAt(s, p) then [(s[p], ValueAt(s, p))] + ScanFrom(s, PairEnd(s, p))
    else ScanFrom(s, p + 1)
  }

  /** The scan captures something exactly when the regular expression matches
      somewhere from `p` on. */
  lemma {:induction false} ScanFindsIffMatch(s: string, p: nat)
    requires p <= |s|
    ensures |ScanFrom(s, p)| > 0 <==> exists q :: p <= q < |s| && PairAt(s, q)
    decreases |s| - p
  {
    if p < |s| && !PairAt(s, p) {
      ScanFindsIffMatch(s, p + 1);
      if exists q :: p <= q < |s| && PairAt(s, q) {
        var q :| p <= q < |s| && PairAt(s, q);
        assert q != p;
      }
    }
  }

  /** The scanning loop. */
  method Scan(s: string) returns (pairs: seq<Entry>)
    ensures pairs == ScanFrom(s, 0)
  {
    pairs := [];
    var p := 0;
    while p < |s|
      invariant p <= |s|
      invariant pairs + ScanFrom(s, p) == ScanFrom(s, 0)
      decreases |s| - p
    {
      if PairAt(s, p) {
        var value := if p + 5 < |s| && IsWord(s[p + 5]) then Name(s[p + 5]) else Empty;
        pairs := pairs + [(s[p], value)];
        p := if value.Name? then p + 6 else p + 5;
      } else {
        p := p + 1;
      }
    }
  }

  /** The value that the last pair with key `k` carries, if any. */
  function LastValue(pairs: seq<Entry>, k: char): (r: Option<Token>)
    ensures r.None? <==> k !in Keys(pairs)
  {
    if |pairs| == 0 then None
    else
      var init, last := pairs[..|pairs| - 1], pairs[|pairs| - 1];
      assert Keys(pairs) == Keys(init) + [last.0];
      if last.0 == k then Some(last.1) else LastValue(init, k)
  }

  /** `each_with_object({}) { |pair, hash| hash[pair.first] = pair.last }`. */
  function Collected(pairs: seq<Entry>): (hash: seq<Entry>)
    ensures DistinctKeys(hash)
    ensures forall e :: e in hash ==> e in pairs
  {
    if |pairs| == 0 then []
    else
      var init, last := pairs[..|pairs| - 1], pairs[|pairs| - 1];
      Store(Collected(init), last.0, last.1)
  }

  /** A key stays where it was first stored: the hash's keys are the captured
      keys with repeats dropped. */
  lemma {:induction false} CollectedKeys(pairs: seq<Entry>)
    ensures Keys(Collected(pairs)) == Uniq(Keys(pairs))
  {
    if |pairs| > 0 {
      var init, last := pairs[..|pairs| - 1], pairs[|pairs| - 1];
      CollectedKeys(init);
      var ks := Keys(pairs);
      assert ks[..|ks| - 1] == Keys(init) && ks[|ks| - 1] == last.0;
      var u := Uniq(Keys(init));
      assert Uniq(ks) == if last.0 in u then u else u + [last.0];
      assert Collected(pairs) == Store(Collected(init), last.0, last.1);
    }
  }

  /** The last value stored under a key wins. */
  lemma {:induction false} CollectedGet(pairs: seq<Entry>, k: char)
    ensures Get(Collected(pairs), k) == LastValue(pairs, k)
  {
    if |pairs| > 0 {
      CollectedGet(pairs[..|pairs| - 1], k);
    }
  }

  /** With no repeated key, the hash holds the captured pairs as they are. */
  lemma {:induction false} CollectedDistinct(pairs: seq<Entry>)
    requires DistinctKeys(pairs)
    ensures Collected(pairs) == pairs
  {
    if |pairs| > 0 {
      var init, last := pairs[..|pairs| - 1], pairs[|pairs| - 1];
      assert pairs == init + [last];
      var ks := Keys(pairs);
      assert Keys(init) == ks[..|ks| - 1];
      assert DistinctKeys(init);
      CollectedDistinct(init);
      assert forall j :: 0 <= j < |ks| - 1 ==> ks[j] != ks[|ks| - 1];
      assert last.0 !in Keys(init);
      StoreNew(init, last.0, last.1);
    }
  }

  lemma CollectedExtends(pairs: seq<Entry>, i: nat)
    requires i < |pairs|
    ensures Collected(pairs[..i + 1]) == Store(Collected(pairs[..i]), pairs[i].0, pairs[i].1)
  {
    assert pairs[..i + 1][..i] == pairs[..i];
  }

  /** The hash-filling loop. Each key occurs once, and keys and values are
      captures of the regular expression. */
  method Parse(s: string) returns (hash: seq<Entry>)
    ensures hash == Collected(ScanFrom(s, 0))
    ensures DistinctKeys(hash) && WellFormed(hash)
  {
    var pairs := Scan(s);
    hash := [];
    var i := 0;
    while i < |pairs|
      invariant i <= |pairs|
      invariant hash == Collected(pairs[..i])
    {
      CollectedExtends(pairs, i);
      hash := Store(hash, pairs[i].0, pairs[i].1);
      i := i + 1;
    }
    assert pairs[..i] == pairs;
  }

  /** The text format the parser reads, written out: one `job => dependency`
      line per entry, the lines separated by a backslash and `n` as in the
      single-quoted strings of the examples. */
  function Line(e: Entry): string {
    [e.0] + " => " + (if e.1.Name? then [e.1.id] else "")
  }

  function Render(jobs: seq<Entry>): string {
    if |jobs| == 0 then ""
    else if |jobs| == 1 then Line(jobs[0])
    else Line(jobs[0]) + "\\n" + Render(jobs[1..])
  }

  /** The scan from a position looks only at what follows it. */
  lemma {:induction false} ScanShift(prefix: string, t: string, q: nat)
    requires q <= |t|
    ensures ScanFrom(prefix + t, |prefix| + q) == ScanFrom(t, q)
    decreases |t| - q
  {
    var s := prefix + t;
    var p := |prefix| + q;
    if q < |t| {
      assert s[p..] == t[q..];
      assert PairAt(s, p) == PairAt(t, q);
      if PairAt(t, q) {
        assert ValueAt(s, p) == ValueAt(t, q);
        ScanShift(prefix, t, PairEnd(t, q));
      } else {
        ScanShift(prefix, t, q + 1);
      }
    }
  }

  /** Scanning a rendered hash gives back its entries, in order. */
  lemma {:induction false} ScanRender(jobs: seq<Entry>)
    requires WellFormed(jobs)
    ensures ScanFrom(Render(jobs), 0) == jobs
  {
    if |jobs| == 1 {
      var s := Render(jobs);
      assert PairAt(s, 0);
    } else if |jobs| > 1 {
      var line := Line(jobs[0]);
      var rest := Render(jobs[1..]);
      var s := line + "\\n" + rest;
      assert PairAt(s, 0);
      var e := PairEnd(s, 0);
      assert ValueAt(s, 0) == jobs[0].1;
      assert e == |line|;
      assert !PairAt(s, e);
      assert !PairAt(s, e + 1);
      ScanShift(line + "\\n", rest, 0);
      ScanRender(jobs[1..]);
      assert s == Render(jobs);
      assert ScanFrom(s, e + 2) == jobs[1..];
      assert ScanFrom(s, e) == jobs[1..];
      assert ScanFrom(s, 0) == [(jobs[0].0, jobs[0].1)] + jobs[1..];
      assert jobs == [jobs[0]] + jobs[1..];
    }
  }

  /** Round trip through `JobsParser.call`: a rendered hash passes validation
      and parses back to itself. */
  lemma ParseRender(jobs: seq<Entry>)
    requires WellFormed(jobs) && DistinctKeys(jobs)
    ensures Valid(Some(Render(jobs)))
    ensures Collected(ScanFrom(Render(jobs), 0)) == jobs
  {
    ScanRender(jobs);
    ScanFindsIffMatch(Render(jobs), 0);
    CollectedDistinct(jobs);
  }

  /** The validation schema: a string that is empty, or that the regular
      expression matches somewhere. `nil` is no string and fails both. */
  predicate Valid(input: Option<string>) {
    input.Some? && (input.value == "" || exists q :: 0 <= q < |input.value| && PairAt(input.value, q))
  }

  /** The schema check, as the regular expression engine does it: look for a
      match at each position in turn. */
  method Validate(input: Option<string>) returns (ok: bool)
    ensures ok == Valid(input)
  {
    if input.None? {
      return false;
    }
    var s := input.value;
    if s == "" {
      return true;
    }
    var p := 0;
    while p < |s|
      invariant p <= |s|
      invariant forall q :: 0 <= q < p ==> !PairAt(s, q)
    {
      if PairAt(s, p) {
        return true;
      }
      p := p + 1;
    }
    return false;
  }

  /** `JobsParser.call`: validate, then parse. */
  method Call(input: Option<string>) returns (r: ParseOutcome)
    ensures r == Invalid <==> !Valid(input)
    ensures r.Parsed? ==> r.jobs == Collected(ScanFrom(input.value, 0))
  {
    var ok := Validate(input);
    if !ok {
      return Invalid;
    }
    var hash := Parse(input.value);
    return Parsed(hash);
  }

  /** A string passes validation exactly when it is empty or parses to a
      non-empty hash. */
  lemma ValidIffNonEmptyParse(s: string)
    ensures Valid(Some(s)) <==> s == "" || |Collected(ScanFrom(s, 0))| > 0
  {
    ScanFindsIffMatch(s, 0);
    CollectedKeys(ScanFrom(s, 0));
  }
}
