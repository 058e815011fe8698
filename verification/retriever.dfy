/** The retriever's policy: the vector store's answer when it has one,
    otherwise a random sample of catalogue rows, otherwise nothing. */
module Retriever {
  import opened Wrappers
  import opened Catalog
  import opened Encoder

  /** What the vector-store search did: failed, or returned documents (the
      store itself is outside this model). */
  datatype SearchOutcome = SearchFailed | SearchFound(docs: seq<Document>)

  /** The catalogue as loaded when the retriever was created. */
  datatype CatalogState = CatalogMissing | CatalogLoaded(rows: seq<Row>)

  /** The vector store gave a usable answer. */
  predicate HasHits(search: SearchOutcome) {
    search.SearchFound? && search.docs != []
  }

  /** `picks` is a draw of `count` distinct positions below `n`. */
  predicate IsSample(picks: seq<nat>, count: nat, n: nat) {
    && |picks| == count
    && (forall i :: 0 <= i < |picks| ==> picks[i] < n)
    && (forall i, j :: 0 <= i < j < |picks| ==> picks[i] != picks[j])
  }

  function Range(n: nat): (r: seq<nat>)
    ensures IsSample(r, n, n)
    ensures forall i :: 0 <= i < n ==> r[i] == i
  {
    seq(n, i requires 0 <= i => i)
  }

  /** The documents the retriever returns for a query, given what the
      vector store did; `picks` are the sampled catalogue positions (empty
      when the store's answer is used or there is no catalogue). The draw
      is an arbitrary one: its distribution is not modelled. */
  method Invoke(search: SearchOutcome, catalog: CatalogState, k: nat) returns (docs: seq<Document>, picks: seq<nat>)
    ensures HasHits(search) ==> docs == search.docs && picks == []
    ensures !HasHits(search) && catalog.CatalogMissing? ==> docs == [] && picks == []
    ensures !HasHits(search) && catalog.CatalogLoaded? ==>
      && IsSample(picks, Min(k, |catalog.rows|), |catalog.rows|)
      && |docs| == |picks|
      && forall i :: 0 <= i < |picks| ==> docs[i] == EncodeRow(catalog.rows[picks[i]], picks[i])
  {
    if HasHits(search) {
      return search.docs, [];
    }
    if catalog.CatalogMissing? {
      return [], [];
    }
    var rows := catalog.rows;
    var count := Min(k, |rows|);
    assert IsSample(Range(count), count, |rows|);
    picks :| IsSample(picks, count, |rows|);
    assert IsSample(picks, count, |rows|);
    docs := MapPicked(rows, picks, EncodeRow);
  }

  /** A document the fallback returns is the very document built for that
      catalogue row when the store was filled, and the fallback never
      returns the same row twice. */
  lemma FallbackMatchesBuild(rows: seq<Row>, built: seq<Document>, docs: seq<Document>, picks: seq<nat>)
    requires |built| == |rows| && forall i :: 0 <= i < |rows| ==> built[i] == EncodeRow(rows[i], i)
    requires IsSample(picks, |docs|, |rows|)
    requires forall i :: 0 <= i < |picks| ==> docs[i] == EncodeRow(rows[picks[i]], picks[i])
    ensures forall i :: 0 <= i < |docs| ==> docs[i] == built[picks[i]]
    ensures forall i, j :: 0 <= i < j < |docs| ==> docs[i].id != docs[j].id
  {
    forall i, j | 0 <= i < j < |docs| ensures docs[i].id != docs[j].id {
      EncodedIdsDistinct(rows[picks[i]], picks[i], rows[picks[j]], picks[j]);
    }
  }
}
