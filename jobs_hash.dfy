/** The jobs hash that the parser builds and the sequencer consumes: a Ruby
    Hash from a one-character job id to a dependency string, which is either
    '' (no dependency) or another one-character id. Ruby hashes iterate in
    insertion order, so the hash is an ordered sequence of entries. */
module JobsHash {
  import opened Seqs

  /** A Ruby string that is either '' or a single character. */
  datatype Token = Empty | Name(id: char)

  /** One `job => dependency` pair. */
  type Entry = (char, Token)

  /** The keys in iteration (insertion) order. */
  function Keys(hash: seq<Entry>): (ks: seq<char>)
    ensures |ks| == |hash|
    ensures forall i :: 0 <= i < |hash| ==> ks[i] == hash[i].0
  {
    seq(|hash|, i requires 0 <= i < |hash| => hash[i].0)
  }

  /** A Ruby hash never holds the same key twice. */
  predicate DistinctKeys(hash: seq<Entry>) {
    Distinct(Keys(hash))
  }

  /** `hash[k]`: the value stored under `k`, or None (Ruby's nil) when absent. */
  function Get(hash: seq<Entry>, k: char): (r: Option<Token>)
    ensures r.None? <==> k !in Keys(hash)
    ensures r.Some? ==> exists i :: 0 <= i < |hash| && hash[i] == (k, r.value)
  {
    match IndexOf(Keys(hash), k)
    case None => None
    case Some(i) => Some(hash[i].1)
  }

  /** With distinct keys, an entry's own value is what a lookup of its key finds. */
  lemma GetEntry(hash: seq<Entry>, i: nat)
    requires DistinctKeys(hash) && i < |hash|
    ensures Get(hash, hash[i].0) == Some(hash[i].1)
  {
    var ks := Keys(hash);
    var j := IndexOf(ks, hash[i].0).value;
    assert ks[j] == ks[i];
  }

  /** `hash[k] = v`: an existing key keeps its position and takes the new value,
      a new key is added at the end. */
  function Store(hash: seq<Entry>, k: char, v: Token): (r: seq<Entry>)
    ensures Keys(r) == if k in Keys(hash) then Keys(hash) else Keys(hash) + [k]
    ensures Get(r, k) == Some(v)
    ensures forall x :: x != k ==> Get(r, x) == Get(hash, x)
    ensures DistinctKeys(hash) ==> DistinctKeys(r)
    ensures forall e :: e in r ==> e in hash || e == (k, v)
  {
    match IndexOf(Keys(hash), k)
    case Some(i) =>
      var r := hash[i := (k, v)];
      assert Keys(r) == Keys(hash);
      r
    case None =>
      var r := hash + [(k, v)];
      assert Keys(r) == Keys(hash) + [k];
      assert forall x :: x != k ==> IndexOf(Keys(r), x) == IndexOf(Keys(hash), x) by {
        forall x | x != k ensures IndexOf(Keys(r), x) == IndexOf(Keys(hash), x) {
          if x in Keys(hash) { IndexOfAppend(Keys(hash), k, x); }
        }
      }
      r
  }

  /** Storing a new key appends its entry. */
  lemma StoreNew(hash: seq<Entry>, k: char, v: Token)
    requires k !in Keys(hash)
    ensures Store(hash, k, v) == hash + [(k, v)]
  {
  }

  /** Storing an existing key replaces its value where it stands. */
  lemma StoreExisting(hash: seq<Entry>, i: nat, v: Token)
    requires DistinctKeys(hash) && i < |hash|
    ensures Store(hash, hash[i].0, v) == hash[i := (hash[i].0, v)]
  {
    var ks := Keys(hash);
    var j := IndexOf(ks, hash[i].0).value;
    assert ks[j] == ks[i];
  }
}
