/**
 * The repository list submitted with a project form is decoded, stripped of its empty
 * entries and stored again; creation and editing run the same steps.
 */
module Repos {
  import opened Seqs

  predicate NonEmpty(url: string)
  {
    url != ""
  }

  /** The list as stored: the submitted entries without the empty strings. */
  function Normalise(submitted: seq<string>): (r: seq<string>)
    ensures forall u :: u in r <==> u in submitted && u != ""
    ensures "" !in r
    ensures |r| <= |submitted|
  {
    Filter(submitted, NonEmpty)
  }

  /**
   * Exactly the empty strings are removed, and the order is kept: the stored list is the
   * submitted one read at increasing positions, namely at every position whose entry is
   * not empty.
   */
  lemma NormaliseExact(submitted: seq<string>)
    ensures SelectedAt(Normalise(submitted), submitted, KeptIndices(submitted, NonEmpty))
    ensures forall i :: 0 <= i < |submitted| ==>
              (i in KeptIndices(submitted, NonEmpty) <==> submitted[i] != "")
  {
    FilterSelects(submitted, NonEmpty);
    KeptIndicesExact(submitted, NonEmpty);
  }

  lemma NormaliseIdempotent(submitted: seq<string>)
    ensures Normalise(Normalise(submitted)) == Normalise(submitted)
  {
    FilterIdempotent(submitted, NonEmpty);
  }

  /** A list without empty entries, such as every stored list, is stored unchanged. */
  lemma NormaliseClean(repos: seq<string>)
    requires "" !in repos
    ensures Normalise(repos) == repos
  {
    FilterAllKept(repos, NonEmpty);
  }

  /** Normalisation works entry by entry, so it distributes over concatenation. */
  lemma NormaliseAppend(a: seq<string>, b: seq<string>)
    ensures Normalise(a + b) == Normalise(a) + Normalise(b)
  {
    FilterAppend(a, b, NonEmpty);
  }
}
