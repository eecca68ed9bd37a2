/** Similarity matching and line expansion for paginated documents: the
    loops of `performPatternMatch` that find the seed, collect the lines of
    the raw matches and select every node on those lines. */
module Matching {
  import opened Structure
  import opened Features

  /** `findIndex` of the seed id: the first node carrying it, if any. */
  function SeedIndex(nodes: seq<PdfNode>, id: NodeId): (r: Option<nat>)
    ensures r.None? <==> forall j :: 0 <= j < |nodes| ==> nodes[j].id != id
    ensures r.Some? ==>
      (r.value < |nodes| && nodes[r.value].id == id && forall j :: 0 <= j < r.value ==> nodes[j].id != id)
  {
    if |nodes| == 0 then None
    else if nodes[0].id == id then Some(0)
    else match SeedIndex(nodes[1..], id)
      case None => None
      case Some(k) => Some(k + 1)
  }

  /** The `findIndex` loop: -1 when no node has the id, otherwise the index
      of the first node that does. */
  method FindSeed(nodes: seq<PdfNode>, id: NodeId) returns (idx: int)
    ensures idx == (match SeedIndex(nodes, id) case None => -1 case Some(k) => k)
  {
    idx := 0;
    while idx < |nodes|
      invariant 0 <= idx <= |nodes|
      invariant forall j :: 0 <= j < idx ==> nodes[j].id != id
    {
      if nodes[idx].id == id {
        return;
      }
      idx := idx + 1;
    }
    idx := -1;
  }

  /** Node `i` is a raw match for seed `seed` when its score exceeds the
      similarity threshold. */
  predicate RawMatch(features: seq<seq<real>>, seed: nat, i: nat)
    requires seed < |features| && i < |features| && IsFeatureMatrix(features, |features|)
  {
    Dot(features[i], features[seed]) > SimilarityThreshold
  }

  /** Matching is mutual: node `i` is a raw match for seed `k` exactly when
      node `k` is a raw match for seed `i`. */
  lemma RawMatchSymmetric(features: seq<seq<real>>, k: nat, i: nat)
    requires k < |features| && i < |features| && IsFeatureMatrix(features, |features|)
    ensures RawMatch(features, k, i) <==> RawMatch(features, i, k)
  {
    DotSymmetric(features[i], features[k]);
  }

  /** The line keys of all raw matches. */
  function ActiveLines(nodes: seq<PdfNode>, features: seq<seq<real>>, seed: nat): set<LineKey>
    requires seed < |nodes| && IsFeatureMatrix(features, |nodes|)
  {
    set i | 0 <= i < |nodes| && RawMatch(features, seed, i) :: LineOf(nodes[i])
  }

  /** The `similarity.forEach` loop: collects the line key of every node
      whose score is above the threshold. */
  method CollectActiveLines(nodes: seq<PdfNode>, features: seq<seq<real>>, seed: nat)
    returns (lines: set<LineKey>)
    requires seed < |nodes| && IsFeatureMatrix(features, |nodes|)
    ensures lines == ActiveLines(nodes, features, seed)
  {
    var similarity := Scores(features, seed);
    lines := {};
    var idx := 0;
    while idx < |similarity|
      invariant 0 <= idx <= |similarity|
      invariant forall key :: key in lines <==>
        exists i :: 0 <= i < idx && RawMatch(features, seed, i) && LineOf(nodes[i]) == key
    {
      if similarity[idx] > SimilarityThreshold {
        lines := lines + {LineOf(nodes[idx])};
      }
      idx := idx + 1;
    }
    assert forall key :: key in lines <==> key in ActiveLines(nodes, features, seed);
  }

  /** Ids of every node on one of `lines`, matched or not. */
  function LineMembers(nodes: seq<PdfNode>, lines: set<LineKey>): set<NodeId> {
    set i | 0 <= i < |nodes| && LineOf(nodes[i]) in lines :: nodes[i].id
  }

  /** The full-line loop: adds to `ids` the id of every node whose line key
      is active. */
  method ExpandLines(ids: set<NodeId>, nodes: seq<PdfNode>, lines: set<LineKey>)
    returns (newIds: set<NodeId>)
    ensures newIds == ids + LineMembers(nodes, lines)
  {
    newIds := ids;
    var idx := 0;
    while idx < |nodes|
      invariant 0 <= idx <= |nodes|
      invariant forall id :: id in newIds <==>
        id in ids || exists i :: 0 <= i < idx && LineOf(nodes[i]) in lines && nodes[i].id == id
    {
      if LineOf(nodes[idx]) in lines {
        newIds := newIds + {nodes[idx].id};
      }
      idx := idx + 1;
    }
    assert forall id :: id in newIds <==> id in ids + LineMembers(nodes, lines);
  }
}
