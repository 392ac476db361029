/**
 * The whole correlation of the script: parse the OBJ lines, tally the
 * elements hit by each group's vertices, keep each group's majority
 * elements and invert the result into name_mapping_2.
 */
module Pipeline {
  import opened Wrappers
  import opened Dicts
  import opened Obj
  import opened Votes
  import opened Majority
  import opened Inverse

  /** name_mapping_2 for the OBJ file ls, or the IndexError that ends the run. */
  function Correlate(env: Env, ls: seq<Line>): Result<InverseMapping, Error> {
    match Aggregate(env, Vertices(ls), Groups(ls))
    case Err(e) => Err(e)
    case Ok(nm) => Ok(Invert(nm))
  }

  /** The script's steps in order: vertices(), groups(), the aggregation loop, the inversion. */
  method Run(env: Env, ls: seq<Line>) returns (r: Result<InverseMapping, Error>)
    ensures r == Correlate(env, ls)
  {
    var verts := ParseVertices(ls);
    var gs := ParseGroups(ls);
    var agg := AggregateVotes(env, verts, gs);
    match agg {
      case Err(e) =>
        r := Err(e);
      case Ok(nm) =>
        var inv := InvertMapping(nm);
        r := Ok(inv);
    }
  }

  /** Every `f ` line lists at least one index. */
  predicate FacesNonEmpty(ls: seq<Line>) {
    forall k :: 0 <= k < |ls| && ls[k].F? ==> ls[k].face != []
  }

  /** Every index of every `f ` line is one numpy accepts once one is subtracted. */
  predicate FaceIndicesInRange(ls: seq<Line>) {
    forall k, j :: 0 <= k < |ls| && ls[k].F? && 0 <= j < |ls[k].face| ==>
      1 - |Vertices(ls)| <= ls[k].face[j] <= |Vertices(ls)|
  }

  /** The group gs[k] samples without error when all face indices are in range. */
  lemma GroupSamples(ls: seq<Line>, k: nat)
    requires FacesNonEmpty(ls) && FaceIndicesInRange(ls)
    requires k < |Groups(ls)|
    ensures Sample(Vertices(ls), Groups(ls)[k].faces).Ok?
  {
    var verts, gs := Vertices(ls), Groups(ls);
    GroupsHaveFaces(ls);
    GroupsKeepAllFaces(ls);
    AllFacesMembers(gs);
    FaceLinesMembers(ls);
    var fs := gs[k].faces;
    FlattenMembers(fs);
    SampleLaw(verts, fs);
    assert gs[k] in gs;
    assert fs[0] in AllFaces(gs);
    var k0 :| 0 <= k0 < |ls| && ls[k0] == F(fs[0]);
    assert fs[0][0] in Flatten(fs);
    forall j | 0 <= j < |Flatten(fs)|
      ensures 1 - |verts| <= Flatten(fs)[j] <= |verts|
    {
      var i := Flatten(fs)[j];
      assert i in Flatten(fs);
      var f :| f in fs && i in f;
      assert f in AllFaces(gs);
      var kf :| 0 <= kf < |ls| && ls[kf] == F(f);
      var jf :| 0 <= jf < |f| && f[jf] == i;
      assert ls[kf].face[jf] == i;
    }
  }

  /** A face index out of range makes the group holding it fail to sample. */
  lemma GroupFails(ls: seq<Line>, k: nat, j: nat)
    requires k < |ls| && ls[k].F? && j < |ls[k].face|
    requires !(1 - |Vertices(ls)| <= ls[k].face[j] <= |Vertices(ls)|)
    ensures exists g :: 0 <= g < |Groups(ls)| && Sample(Vertices(ls), Groups(ls)[g].faces).Err?
  {
    var verts, gs := Vertices(ls), Groups(ls);
    var f, i := ls[k].face, ls[k].face[j];
    GroupsKeepAllFaces(ls);
    AllFacesMembers(gs);
    FaceLinesMembers(ls);
    assert ls[k] in ls;
    assert f in AllFaces(gs);
    var g :| g in gs && f in g.faces;
    var n :| 0 <= n < |gs| && gs[n] == g;
    FlattenMembers(g.faces);
    assert i in f;
    assert i in Flatten(g.faces);
    var m :| 0 <= m < |Flatten(g.faces)| && Flatten(g.faces)[m] == i;
    SampleLaw(verts, gs[n].faces);
    assert Sample(verts, gs[n].faces).Err?;
  }

  /**
   * When every `f ` line lists at least one index, the run fails exactly
   * when some face index lies outside 1 - |verts| .. |verts|.
   */
  lemma CorrelateSucceeds(env: Env, ls: seq<Line>)
    requires FacesNonEmpty(ls)
    ensures Correlate(env, ls).Ok? <==> FaceIndicesInRange(ls)
  {
    AggregateSucceeds(env, Vertices(ls), Groups(ls));
    if FaceIndicesInRange(ls) {
      forall k | 0 <= k < |Groups(ls)|
        ensures Sample(Vertices(ls), Groups(ls)[k].faces).Ok?
      {
        GroupSamples(ls, k);
      }
    } else {
      var k, j :| 0 <= k < |ls| && ls[k].F? && 0 <= j < |ls[k].face| &&
        !(1 - |Vertices(ls)| <= ls[k].face[j] <= |Vertices(ls)|);
      GroupFails(ls, k, j);
    }
  }

  /** Within one name's tally, keeping e means passing the filter and more than half the top count. */
  lemma KeptByPairs(env: Env, verts: seq<Point>, gs: seq<Group>, n: Name)
    requires Aggregate(env, verts, gs).Ok?
    requires n in Aggregate(env, verts, gs).value.vals
    ensures var nm, sgs := Aggregate(env, verts, gs).value, SampleAll(verts, gs).value;
      WellFormed(nm) && (exists e :: Keeps(nm, n, e)) &&
      forall e :: Keeps(nm, n, e) <==>
        Passes(env, e) && 2 * NamedPairsResolvingTo(env, sgs, n, e) > MaxCount(nm.vals[n])
  {
    var nm := Aggregate(env, verts, gs).value;
    AggregateCounts(env, verts, gs, nm, SampleAll(verts, gs).value);
    KeptIsStrictHalf(nm.vals[n]);
    KeptHasAllWinners(nm.vals[n]);
    var e := Kept(nm.vals[n])[0];
    assert Keeps(nm, n, e);
  }

  /**
   * What name_mapping_2 holds after a run that does not fail: e lists the
   * group name n exactly when e passes the filter and the pairs of n's
   * groups that resolve to e are more than half of n's largest count; no
   * name is listed twice; and every name that has a surviving hit is listed
   * under at least one element.
   */
  lemma CorrelateLaw(env: Env, ls: seq<Line>)
    requires Correlate(env, ls).Ok?
    ensures var verts, gs := Vertices(ls), Groups(ls);
      var nm, sgs, inv := Aggregate(env, verts, gs).value, SampleAll(verts, gs).value, Correlate(env, ls).value;
      WellFormed(nm) && Valid(inv) &&
      (forall e :: Distinct(Get(inv, e, []))) &&
      (forall e, n :: n in Get(inv, e, []) <==>
         n in nm.vals && Passes(env, e) && 2 * NamedPairsResolvingTo(env, sgs, n, e) > MaxCount(nm.vals[n])) &&
      (forall n :: n in nm.vals ==> exists e :: n in Get(inv, e, []))
  {
    var verts, gs := Vertices(ls), Groups(ls);
    var nm, sgs := Aggregate(env, verts, gs).value, SampleAll(verts, gs).value;
    var inv := Invert(nm);
    InversionLaw(nm);
    forall e, n
      ensures n in Get(inv, e, []) <==>
        n in nm.vals && Passes(env, e) && 2 * NamedPairsResolvingTo(env, sgs, n, e) > MaxCount(nm.vals[n])
    {
      if n in nm.vals {
        KeptByPairs(env, verts, gs, n);
      }
    }
    forall n | n in nm.vals
      ensures exists e :: n in Get(inv, e, [])
    {
      KeptByPairs(env, verts, gs, n);
    }
  }
}
