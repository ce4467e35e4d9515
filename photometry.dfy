/** The join of a match list with the measured source catalog: every match
    whose source id appears in the catalog gets the catalog's source of that
    id as its second element, and the joined matches are counted. */
module PhotometryJoin {

  /** A detected source; only the fields the join and its callers read. */
  datatype Source = Source(sourceId: int, psfFlux: real)

  /** A reference object (first) matched with a detected source (second). */
  datatype SourceMatch = SourceMatch(first: Source, second: Source, distance: real)

  /** The id -> source dictionary built from the catalog in list order, so a
      later source replaces an earlier one with the same id. */
  function IdToSource(sources: seq<Source>): (m: map<int, Source>)
    ensures m.Keys == set s | s in sources :: s.sourceId
    ensures forall id :: id in m ==> m[id].sourceId == id && m[id] in sources
  {
    if |sources| == 0 then map[]
    else
      var prefix, last := sources[..|sources| - 1], sources[|sources| - 1];
      assert sources == prefix + [last];
      IdToSource(prefix)[last.sourceId := last]
  }

  /** For an id that occurs, the dictionary holds the source at the last index
      with that id. */
  lemma {:induction false} IdToSourceLastWins(sources: seq<Source>, id: int)
    requires id in IdToSource(sources)
    ensures exists j :: 0 <= j < |sources| && IdToSource(sources)[id] == sources[j]
                        && forall k :: j < k < |sources| ==> sources[k].sourceId != id
  {
    var n := |sources|;
    var prefix, last := sources[..n - 1], sources[n - 1];
    assert sources == prefix + [last];
    if last.sourceId == id {
      assert IdToSource(sources)[id] == sources[n - 1];
    } else {
      assert id in IdToSource(prefix);
      IdToSourceLastWins(prefix, id);
      var j :| 0 <= j < |prefix| && IdToSource(prefix)[id] == prefix[j]
               && forall k :: j < k < |prefix| ==> prefix[k].sourceId != id;
      assert IdToSource(sources)[id] == sources[j];
      assert forall k :: j < k < n ==> sources[k].sourceId != id by {
        forall k | j < k < n ensures sources[k].sourceId != id {
          if k < n - 1 { assert sources[k] == prefix[k]; }
        }
      }
    }
  }

  /** One step of the loop: the match with its second replaced when its id is a key. */
  function JoinOne(m: SourceMatch, idtosrc: map<int, Source>): SourceMatch
  {
    if m.second.sourceId in idtosrc then m.(second := idtosrc[m.second.sourceId]) else m
  }

  /** The match list after the loop. */
  function JoinAll(ms: seq<SourceMatch>, idtosrc: map<int, Source>): (r: seq<SourceMatch>)
    ensures |r| == |ms|
  {
    seq(|ms|, i requires 0 <= i < |ms| => JoinOne(ms[i], idtosrc))
  }

  /** The number of matches whose source id is a key of idtosrc. */
  function CountFound(ms: seq<SourceMatch>, idtosrc: map<int, Source>): (c: nat)
    ensures c <= |ms|
  {
    if |ms| == 0 then 0
    else CountFound(ms[..|ms| - 1], idtosrc) + (if ms[|ms| - 1].second.sourceId in idtosrc then 1 else 0)
  }

  /** The count is the number of indices whose id is found. */
  lemma {:induction false} CountFoundIsCardinality(ms: seq<SourceMatch>, idtosrc: map<int, Source>)
    ensures CountFound(ms, idtosrc) == |set i | 0 <= i < |ms| && ms[i].second.sourceId in idtosrc|
  {
    var found := set i | 0 <= i < |ms| && ms[i].second.sourceId in idtosrc;
    if |ms| == 0 {
      assert found == {};
    } else {
      var n := |ms|;
      var prefix := ms[..n - 1];
      var before := set i | 0 <= i < |prefix| && prefix[i].second.sourceId in idtosrc;
      CountFoundIsCardinality(prefix, idtosrc);
      if ms[n - 1].second.sourceId in idtosrc {
        assert found == before + {n - 1};
      } else {
        assert found == before;
      }
    }
  }

  /** A found match gets the catalog source of its own id; any other match
      is left exactly as it was; the reference object never changes. */
  lemma JoinAllElement(ms: seq<SourceMatch>, idtosrc: map<int, Source>, i: int)
    requires 0 <= i < |ms|
    requires forall id :: id in idtosrc ==> idtosrc[id].sourceId == id
    ensures JoinAll(ms, idtosrc)[i].first == ms[i].first
    ensures JoinAll(ms, idtosrc)[i].second.sourceId == ms[i].second.sourceId
    ensures ms[i].second.sourceId in idtosrc ==>
      JoinAll(ms, idtosrc)[i] == ms[i].(second := idtosrc[ms[i].second.sourceId])
    ensures ms[i].second.sourceId !in idtosrc ==> JoinAll(ms, idtosrc)[i] == ms[i]
  {
  }

  /** The loop at the end of the join: smv[i].second is replaced in place by
      the catalog source of the same id, and the replacements are counted. */
  method JoinSources(smv: array<SourceMatch>, sources: seq<Source>) returns (nmatched: nat)
    modifies smv
    ensures smv[..] == JoinAll(old(smv[..]), IdToSource(sources))
    ensures nmatched == CountFound(old(smv[..]), IdToSource(sources))
    ensures nmatched <= smv.Length
  {
    var idtosrc := IdToSource(sources);
    ghost var original := smv[..];
    nmatched := 0;
    for i := 0 to smv.Length
      invariant smv[..i] == JoinAll(original[..i], idtosrc)
      invariant smv[i..] == original[i..]
      invariant nmatched == CountFound(original[..i], idtosrc)
    {
      assert original[..i + 1][..i] == original[..i];
      assert smv[i] == original[i] by { assert smv[i..][0] == original[i..][0]; }
      var s := smv[i].second;
      var sid := s.sourceId;
      if sid in idtosrc {
        smv[i] := smv[i].(second := idtosrc[sid]);
        nmatched := nmatched + 1;
      }
      assert smv[..i + 1] == smv[..i] + [smv[i]];
      assert smv[i + 1..] == original[i + 1..] by {
        assert smv[i + 1..] == old(smv[..])[i + 1..];
      }
    }
    assert original[..smv.Length] == original;
    assert smv[..smv.Length] == smv[..];
  }
}
