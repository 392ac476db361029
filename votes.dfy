/**
 * The vote aggregation: every sampled point of every face group asks the
 * spatial index for the elements near it, each hit is lifted to the
 * aggregate it is a part of, and the hits that pass the type filter are
 * counted in a Counter per group name.
 */
module Votes {
  import opened Wrappers
  import opened Dicts
  import opened Obj

  /** An element of the building model, known only by its identity. */
  type Elem = nat

  /**
   * What the aggregation consults about the building model.
   *  - hits(p): the elements tree.select_box returns for the box from p - 0.2
   *    to p + 0.2 on every axis (left unconstrained: any list of elements);
   *  - parent(e): the RelatingObject of e's first Decomposes relation, if e has one;
   *  - isA(e, t): e.is_a(t);
   *  - elementType: the type filter, None when every type is wanted.
   */
  datatype Env = Env(
    hits: Point -> seq<Elem>,
    parent: Elem -> Option<Elem>,
    isA: (Elem, string) -> bool,
    elementType: Option<string>)

  /** numpy's IndexError when sampling a group's vertices. */
  datatype Error = IndexError

  /** One level up the first Decomposes relation; a hit without one stays as it is. */
  function Resolve(env: Env, e: Elem): Elem {
    if env.parent(e).Some? then env.parent(e).value else e
  }

  /** `element_type is None or inst.is_a(element_type)` */
  predicate Passes(env: Env, e: Elem) {
    env.elementType.None? || env.isA(e, env.elementType.value)
  }

  // ---------------------------------------------------------------------
  // Sampling a group: pts = verts[numpy.array(sum(idxs, ())) - 1]

  /** sum(idxs, ()): the faces' indices one after the other. */
  function Flatten(faces: seq<Face>): seq<int> {
    if faces == [] then [] else faces[0] + Flatten(faces[1..])
  }

  /** An index is in Flatten(faces) exactly when one of the faces holds it. */
  lemma {:induction false} FlattenMembers(faces: seq<Face>)
    ensures forall i :: i in Flatten(faces) <==> exists f :: f in faces && i in f
  {
    if faces != [] {
      FlattenMembers(faces[1..]);
      assert faces == [faces[0]] + faces[1..];
    }
  }

  /**
   * numpy's verts[j] for an integer j: a negative j counts from the end, and
   * outside -|verts| .. |verts| - 1 there is no element (IndexError).
   */
  function NumpyAt(verts: seq<Point>, j: int): Option<Point> {
    if 0 <= j < |verts| then Some(verts[j])
    else if -|verts| <= j < 0 then Some(verts[|verts| + j])
    else None
  }

  /** Fancy indexing with idx - 1: the rows for all indices, or nothing if one is out of range. */
  function Gather(verts: seq<Point>, idx: seq<int>): (r: Option<seq<Point>>)
    ensures r.Some? <==> forall k :: 0 <= k < |idx| ==> NumpyAt(verts, idx[k] - 1).Some?
    ensures r.Some? ==> |r.value| == |idx|
    ensures r.Some? ==> forall k :: 0 <= k < |idx| ==> NumpyAt(verts, idx[k] - 1) == Some(r.value[k])
  {
    if idx == [] then Some([])
    else match NumpyAt(verts, idx[0] - 1)
      case None => None
      case Some(p) =>
        match Gather(verts, idx[1..])
        case None => None
        case Some(ps) => Some([p] + ps)
  }

  /**
   * The points sampled for a group: one per index occurrence in its faces,
   * in order, duplicates kept.  An index i picks verts[i - 1]; 0 and
   * negative indices wrap around from the end as numpy does; an index
   * above |verts| or below 1 - |verts| is an IndexError, and so is a group
   * without any index, because numpy.array(()) is an array of floats.
   */
  function Sample(verts: seq<Point>, faces: seq<Face>): Result<seq<Point>, Error> {
    var idx := Flatten(faces);
    if idx == [] then Err(IndexError)
    else match Gather(verts, idx)
      case None => Err(IndexError)
      case Some(ps) => Ok(ps)
  }

  /**
   * Sampling succeeds exactly when the faces hold an index and every index
   * lies in 1 - |verts| .. |verts|; it then yields one point per index,
   * verts[i - 1] for a positive i and verts[|verts| + i - 1] otherwise.
   */
  lemma SampleLaw(verts: seq<Point>, faces: seq<Face>)
    ensures var r := Sample(verts, faces);
      (r.Ok? <==>
        (Flatten(faces) != [] &&
         forall k :: 0 <= k < |Flatten(faces)| ==> 1 - |verts| <= Flatten(faces)[k] <= |verts|)) &&
      (r.Ok? ==> |r.value| == |Flatten(faces)|) &&
      (r.Ok? ==> forall k :: 0 <= k < |r.value| ==>
        r.value[k] == verts[if Flatten(faces)[k] >= 1 then Flatten(faces)[k] - 1 else |verts| + Flatten(faces)[k] - 1])
  {
  }

  /** A group with its sampled points. */
  datatype Sampled = Sampled(name: Name, pts: seq<Point>)

  /** The groups in order with their samples, or the IndexError of the first group that fails. */
  function SampleAll(verts: seq<Point>, gs: seq<Group>): Result<seq<Sampled>, Error> {
    if gs == [] then Ok([])
    else match SampleAll(verts, gs[..|gs| - 1])
      case Err(e) => Err(e)
      case Ok(done) =>
        var g := gs[|gs| - 1];
        match Sample(verts, g.faces)
        case Err(e) => Err(e)
        case Ok(pts) => Ok(done + [Sampled(g.name, pts)])
  }

  /**
   * Sampling all groups succeeds exactly when each group's sampling does,
   * and then pairs every group, in order, with its own sample.
   */
  lemma {:induction false} SampleAllLaw(verts: seq<Point>, gs: seq<Group>)
    ensures var r := SampleAll(verts, gs);
      (r.Ok? <==> forall k :: 0 <= k < |gs| ==> Sample(verts, gs[k].faces).Ok?) &&
      (r.Ok? ==> |r.value| == |gs|) &&
      (r.Ok? ==> forall k :: 0 <= k < |gs| ==> r.value[k] == Sampled(gs[k].name, Sample(verts, gs[k].faces).value))
  {
    if gs != [] {
      var p := gs[..|gs| - 1];
      SampleAllLaw(verts, p);
      assert forall k :: 0 <= k < |p| ==> p[k] == gs[k];
    }
  }

  // ---------------------------------------------------------------------
  // The votes

  /** One counted hit: the group name and the element it is counted for. */
  datatype Vote = Vote(name: Name, elem: Elem)

  /** The vote of one hit: its resolved element, if that passes the filter. */
  function HitVote(env: Env, name: Name, h: Elem): seq<Vote> {
    var e := Resolve(env, h);
    if Passes(env, e) then [Vote(name, e)] else []
  }

  /** The votes of the hits hs, in order. */
  function HitVotes(env: Env, name: Name, hs: seq<Elem>): seq<Vote> {
    if hs == [] then [] else HitVotes(env, name, hs[..|hs| - 1]) + HitVote(env, name, hs[|hs| - 1])
  }

  /** The votes of the sampled points of one group, point after point. */
  function PointVotes(env: Env, name: Name, pts: seq<Point>): seq<Vote> {
    if pts == [] then []
    else PointVotes(env, name, pts[..|pts| - 1]) + HitVotes(env, name, env.hits(pts[|pts| - 1]))
  }

  /** The votes of all groups, group after group. */
  function AllVotes(env: Env, sgs: seq<Sampled>): seq<Vote> {
    if sgs == [] then []
    else AllVotes(env, sgs[..|sgs| - 1]) + PointVotes(env, sgs[|sgs| - 1].name, sgs[|sgs| - 1].pts)
  }

  /** How many of the hits hs resolve to e. */
  function ResolvingTo(env: Env, hs: seq<Elem>, e: Elem): nat {
    if hs == [] then 0
    else ResolvingTo(env, hs[..|hs| - 1], e) + (if Resolve(env, hs[|hs| - 1]) == e then 1 else 0)
  }

  /** How many (sampled point, hit) pairs of the points pts resolve to e. */
  function PairsResolvingTo(env: Env, pts: seq<Point>, e: Elem): nat {
    if pts == [] then 0
    else PairsResolvingTo(env, pts[..|pts| - 1], e) + ResolvingTo(env, env.hits(pts[|pts| - 1]), e)
  }

  /** The same, summed over the groups named n: groups that repeat a name pool their pairs. */
  function NamedPairsResolvingTo(env: Env, sgs: seq<Sampled>, n: Name, e: Elem): nat {
    if sgs == [] then 0
    else
      var last := sgs[|sgs| - 1];
      NamedPairsResolvingTo(env, sgs[..|sgs| - 1], n, e) + (if last.name == n then PairsResolvingTo(env, last.pts, e) else 0)
  }

  /**
   * Every vote of a point's hits carries the group's name and an element
   * that passes the filter; an element that passes gets one vote per hit
   * that resolves to it, one that does not pass gets none; with no filter
   * every hit is a vote.
   */
  lemma {:induction false} HitVotesCount(env: Env, name: Name, hs: seq<Elem>)
    ensures forall v :: v in HitVotes(env, name, hs) ==> v.name == name && Passes(env, v.elem)
    ensures forall e :: Passes(env, e) ==> multiset(HitVotes(env, name, hs))[Vote(name, e)] == ResolvingTo(env, hs, e)
    ensures forall e :: !Passes(env, e) ==> multiset(HitVotes(env, name, hs))[Vote(name, e)] == 0
    ensures env.elementType.None? ==> |HitVotes(env, name, hs)| == |hs|
  {
    if hs != [] {
      var p, h := hs[..|hs| - 1], hs[|hs| - 1];
      HitVotesCount(env, name, p);
      assert HitVotes(env, name, hs) == HitVotes(env, name, p) + HitVote(env, name, h);
      assert multiset(HitVotes(env, name, hs)) == multiset(HitVotes(env, name, p)) + multiset(HitVote(env, name, h));
      forall e | Passes(env, e)
        ensures multiset(HitVotes(env, name, hs))[Vote(name, e)] == ResolvingTo(env, hs, e)
      {
        assert ResolvingTo(env, hs, e) == ResolvingTo(env, p, e) + (if Resolve(env, h) == e then 1 else 0);
      }
    }
  }

  /** The same for all the (sampled point, hit) pairs of a group. */
  lemma {:induction false} PointVotesCount(env: Env, name: Name, pts: seq<Point>)
    ensures forall v :: v in PointVotes(env, name, pts) ==> v.name == name && Passes(env, v.elem)
    ensures forall e :: Passes(env, e) ==> multiset(PointVotes(env, name, pts))[Vote(name, e)] == PairsResolvingTo(env, pts, e)
    ensures forall e :: !Passes(env, e) ==> multiset(PointVotes(env, name, pts))[Vote(name, e)] == 0
  {
    if pts != [] {
      PointVotesCount(env, name, pts[..|pts| - 1]);
      HitVotesCount(env, name, env.hits(pts[|pts| - 1]));
    }
  }

  /**
   * Across all groups: the votes for (n, e) are the pairs of the groups
   * named n that resolve to e, when e passes the filter.
   */
  lemma {:induction false} AllVotesCount(env: Env, sgs: seq<Sampled>)
    ensures forall v :: v in AllVotes(env, sgs) ==> Passes(env, v.elem)
    ensures forall n, e :: Passes(env, e) ==> multiset(AllVotes(env, sgs))[Vote(n, e)] == NamedPairsResolvingTo(env, sgs, n, e)
    ensures forall n, e :: !Passes(env, e) ==> multiset(AllVotes(env, sgs))[Vote(n, e)] == 0
  {
    if sgs != [] {
      var last := sgs[|sgs| - 1];
      AllVotesCount(env, sgs[..|sgs| - 1]);
      PointVotesCount(env, last.name, last.pts);
      forall n, e | Passes(env, e)
        ensures multiset(AllVotes(env, sgs))[Vote(n, e)] == NamedPairsResolvingTo(env, sgs, n, e)
      {
        if n != last.name {
          assert Vote(n, e) !in PointVotes(env, last.name, last.pts);
        }
      }
    }
  }

  // ---------------------------------------------------------------------
  // name_mapping: group name -> Counter of elements

  type NameMapping = Dict<Name, Counter<Elem>>

  /**
   * What every name mapping built by the aggregation satisfies: both levels
   * are valid dicts, and every tally is non-empty with positive counts.
   */
  ghost predicate WellFormed(nm: NameMapping) {
    Valid(nm) &&
    forall n :: n in nm.vals ==>
      Valid(nm.vals[n]) && nm.vals[n].keys != [] &&
      forall e :: e in nm.vals[n].vals ==> nm.vals[n].vals[e] >= 1
  }

  /** `name_mapping[name].update([inst])` */
  function Record(nm: NameMapping, v: Vote): NameMapping {
    Put(nm, v.name, Add(Get(nm, v.name, Empty()), v.elem))
  }

  /** name_mapping after counting the votes in order, from an empty defaultdict. */
  function Tally(votes: seq<Vote>): NameMapping {
    if votes == [] then Empty() else Record(Tally(votes[..|votes| - 1]), votes[|votes| - 1])
  }

  /** Counting keeps name_mapping well formed. */
  lemma {:induction false} TallyWellFormed(votes: seq<Vote>)
    ensures WellFormed(Tally(votes))
  {
    if votes != [] {
      TallyWellFormed(votes[..|votes| - 1]);
    }
  }

  lemma TallyStep(votes: seq<Vote>, v: Vote)
    ensures Tally(votes + [v]) == Record(Tally(votes), v)
  {
    assert (votes + [v])[..|votes|] == votes;
  }

  /**
   * A name is a key exactly when some vote carries it, and the count of e
   * under n is the number of votes (n, e); absent keys count zero.
   */
  lemma {:induction false} TallyCounts(votes: seq<Vote>)
    ensures forall n :: n in Tally(votes).vals <==> exists e :: Vote(n, e) in votes
    ensures forall n, e :: Get(Get(Tally(votes), n, Empty()), e, 0) == multiset(votes)[Vote(n, e)]
  {
    if votes != [] {
      var p, v := votes[..|votes| - 1], votes[|votes| - 1];
      assert votes == p + [v];
      TallyCounts(p);
      forall n, e
        ensures Get(Get(Tally(votes), n, Empty()), e, 0) == multiset(votes)[Vote(n, e)]
      {
        if n == v.name {
          assert Get(Tally(votes), n, Empty()) == Add(Get(Tally(p), n, Empty()), v.elem);
        } else {
          assert Get(Tally(votes), n, Empty()) == Get(Tally(p), n, Empty());
        }
      }
      assert Vote(v.name, v.elem) in votes;
    }
  }

  /** The names of the votes, in the order of their first appearance. */
  function FirstNames(votes: seq<Vote>): seq<Name> {
    if votes == [] then []
    else
      var p := FirstNames(votes[..|votes| - 1]);
      var n := votes[|votes| - 1].name;
      if n in p then p else p + [n]
  }

  /** The elements of the votes named n, in the order of their first appearance. */
  function FirstElems(votes: seq<Vote>, n: Name): seq<Elem> {
    if votes == [] then []
    else
      var p := FirstElems(votes[..|votes| - 1], n);
      var v := votes[|votes| - 1];
      if v.name == n && v.elem !in p then p + [v.elem] else p
  }

  /** name_mapping's keys are the vote names in order of first appearance. */
  lemma {:induction false} TallyNameOrder(votes: seq<Vote>)
    ensures Tally(votes).keys == FirstNames(votes)
  {
    if votes != [] {
      var p, v := votes[..|votes| - 1], votes[|votes| - 1];
      TallyNameOrder(p);
      TallyWellFormed(p);
      PutKeys(Tally(p), v.name, Add(Get(Tally(p), v.name, Empty()), v.elem));
    }
  }

  /** The key order of n's tally is the order in which its elements were first counted. */
  lemma {:induction false} TallyElemOrder(votes: seq<Vote>, n: Name)
    ensures Get(Tally(votes), n, Empty()).keys == FirstElems(votes, n)
  {
    if votes != [] {
      var p, v := votes[..|votes| - 1], votes[|votes| - 1];
      TallyElemOrder(p, n);
      if v.name == n {
        TallyWellFormed(p);
        var c := Get(Tally(p), n, Empty());
        assert Valid(c);
        AddKeys(c, v.elem);
        assert Get(Tally(votes), n, Empty()) == Add(c, v.elem);
      } else {
        assert Get(Tally(votes), n, Empty()) == Get(Tally(p), n, Empty());
      }
    }
  }

  /** How many votes carry the name n. */
  function VotesNamed(votes: seq<Vote>, n: Name): nat {
    if votes == [] then 0
    else VotesNamed(votes[..|votes| - 1], n) + (if votes[|votes| - 1].name == n then 1 else 0)
  }

  /** The counts of a name's tally add up to the number of votes cast under that name. */
  lemma {:induction false} TallyTotal(votes: seq<Vote>, n: Name)
    ensures Valid(Get(Tally(votes), n, Empty()))
    ensures Total(Get(Tally(votes), n, Empty())) == VotesNamed(votes, n)
  {
    if votes != [] {
      var p, v := votes[..|votes| - 1], votes[|votes| - 1];
      TallyTotal(p, n);
      if v.name == n {
        AddTotal(Get(Tally(p), n, Empty()), v.elem);
      }
    }
  }

  /** How many of the hits hs resolve to an element that passes the filter. */
  function Surviving(env: Env, hs: seq<Elem>): nat {
    if hs == [] then 0
    else Surviving(env, hs[..|hs| - 1]) + (if Passes(env, Resolve(env, hs[|hs| - 1])) then 1 else 0)
  }

  /** How many (sampled point, hit) pairs of the points pts survive the filter. */
  function SurvivingPairs(env: Env, pts: seq<Point>): nat {
    if pts == [] then 0
    else SurvivingPairs(env, pts[..|pts| - 1]) + Surviving(env, env.hits(pts[|pts| - 1]))
  }

  /** The same, summed over the groups named n. */
  function NamedSurvivingPairs(env: Env, sgs: seq<Sampled>, n: Name): nat {
    if sgs == [] then 0
    else
      var last := sgs[|sgs| - 1];
      NamedSurvivingPairs(env, sgs[..|sgs| - 1], n) + (if last.name == n then SurvivingPairs(env, last.pts) else 0)
  }

  lemma {:induction false} HitVotesLength(env: Env, name: Name, hs: seq<Elem>)
    ensures |HitVotes(env, name, hs)| == Surviving(env, hs)
  {
    if hs != [] {
      HitVotesLength(env, name, hs[..|hs| - 1]);
    }
  }

  lemma {:induction false} PointVotesNamed(env: Env, name: Name, pts: seq<Point>, n: Name)
    ensures VotesNamed(PointVotes(env, name, pts), n) == if name == n then SurvivingPairs(env, pts) else 0
  {
    if pts != [] {
      var p, hs := pts[..|pts| - 1], env.hits(pts[|pts| - 1]);
      PointVotesNamed(env, name, p, n);
      HitVotesCount(env, name, hs);
      HitVotesLength(env, name, hs);
      VotesNamedAppend(PointVotes(env, name, p), HitVotes(env, name, hs), n);
      VotesNamedOfOneName(HitVotes(env, name, hs), name, n);
    }
  }

  lemma {:induction false} VotesNamedAppend(a: seq<Vote>, b: seq<Vote>, n: Name)
    ensures VotesNamed(a + b, n) == VotesNamed(a, n) + VotesNamed(b, n)
    decreases |b|
  {
    if b == [] {
      assert a + b == a;
    } else {
      var p, x := b[..|b| - 1], b[|b| - 1];
      assert (a + b)[..|a + b| - 1] == a + p;
      VotesNamedAppend(a, p, n);
    }
  }

  lemma {:induction false} VotesNamedOfOneName(vs: seq<Vote>, name: Name, n: Name)
    requires forall v :: v in vs ==> v.name == name
    ensures VotesNamed(vs, n) == if name == n then |vs| else 0
  {
    if vs != [] {
      var p := vs[..|vs| - 1];
      assert forall v :: v in p ==> v in vs;
      VotesNamedOfOneName(p, name, n);
    }
  }

  /** The votes cast under a name are the surviving pairs of the groups with that name. */
  lemma {:induction false} AllVotesNamed(env: Env, sgs: seq<Sampled>, n: Name)
    ensures VotesNamed(AllVotes(env, sgs), n) == NamedSurvivingPairs(env, sgs, n)
  {
    if sgs != [] {
      var p, last := sgs[..|sgs| - 1], sgs[|sgs| - 1];
      AllVotesNamed(env, p, n);
      VotesNamedAppend(AllVotes(env, p), PointVotes(env, last.name, last.pts), n);
      PointVotesNamed(env, last.name, last.pts, n);
    }
  }

  /** The whole aggregation: name_mapping, or the IndexError that stops the run. */
  function Aggregate(env: Env, verts: seq<Point>, gs: seq<Group>): (r: Result<NameMapping, Error>)
    ensures r.Ok? ==> WellFormed(r.value)
  {
    match SampleAll(verts, gs)
    case Err(e) => Err(e)
    case Ok(sgs) =>
      TallyWellFormed(AllVotes(env, sgs));
      Ok(Tally(AllVotes(env, sgs)))
  }

  /**
   * What name_mapping holds after a run that does not fail: the count of e
   * under group name n is the number of (sampled point, hit) pairs of the
   * groups named n whose hit resolves to e, when e passes the filter, and
   * zero otherwise; n is a key exactly when such a pair exists for some e;
   * and the counts under n add up to the surviving pairs of those groups.
   */
  lemma AggregateCounts(env: Env, verts: seq<Point>, gs: seq<Group>, nm: NameMapping, sgs: seq<Sampled>)
    requires Aggregate(env, verts, gs) == Ok(nm)
    requires SampleAll(verts, gs) == Ok(sgs)
    ensures WellFormed(nm)
    ensures forall n, e :: Passes(env, e) ==> Get(Get(nm, n, Empty()), e, 0) == NamedPairsResolvingTo(env, sgs, n, e)
    ensures forall n, e :: !Passes(env, e) ==> Get(Get(nm, n, Empty()), e, 0) == 0
    ensures forall n :: n in nm.vals <==> exists e :: Passes(env, e) && NamedPairsResolvingTo(env, sgs, n, e) > 0
    ensures forall n :: Total(Get(nm, n, Empty())) == NamedSurvivingPairs(env, sgs, n)
  {
    assert nm == Tally(AllVotes(env, sgs));
    VoteTallyCounts(env, sgs, nm);
    VoteTallyKeys(env, sgs, nm);
    VoteTallyTotals(env, sgs, nm);
  }

  /** The tally of all votes counts, for each (n, e), the surviving pairs. */
  lemma VoteTallyCounts(env: Env, sgs: seq<Sampled>, nm: NameMapping)
    requires nm == Tally(AllVotes(env, sgs))
    ensures forall n, e :: Passes(env, e) ==> Get(Get(nm, n, Empty()), e, 0) == NamedPairsResolvingTo(env, sgs, n, e)
    ensures forall n, e :: !Passes(env, e) ==> Get(Get(nm, n, Empty()), e, 0) == 0
  {
    TallyCounts(AllVotes(env, sgs));
    AllVotesCount(env, sgs);
  }

  /** A name is a key of the tally exactly when one of its pairs survives. */
  lemma VoteTallyKeys(env: Env, sgs: seq<Sampled>, nm: NameMapping)
    requires nm == Tally(AllVotes(env, sgs))
    ensures forall n :: n in nm.vals <==> exists e :: Passes(env, e) && NamedPairsResolvingTo(env, sgs, n, e) > 0
  {
    var votes := AllVotes(env, sgs);
    TallyCounts(votes);
    AllVotesCount(env, sgs);
    forall n | n in nm.vals
      ensures exists e :: Passes(env, e) && NamedPairsResolvingTo(env, sgs, n, e) > 0
    {
      var v :| v in votes && v.name == n;
      assert multiset(votes)[Vote(n, v.elem)] > 0;
    }
    forall n, e | Passes(env, e) && NamedPairsResolvingTo(env, sgs, n, e) > 0
      ensures n in nm.vals
    {
      assert multiset(votes)[Vote(n, e)] > 0;
    }
  }

  /** The counts under a name add up to that name's surviving pairs. */
  lemma VoteTallyTotals(env: Env, sgs: seq<Sampled>, nm: NameMapping)
    requires nm == Tally(AllVotes(env, sgs))
    ensures WellFormed(nm)
    ensures forall n :: Total(Get(nm, n, Empty())) == NamedSurvivingPairs(env, sgs, n)
  {
    TallyWellFormed(AllVotes(env, sgs));
    forall n
      ensures Total(Get(nm, n, Empty())) == NamedSurvivingPairs(env, sgs, n)
    {
      TallyTotal(AllVotes(env, sgs), n);
      AllVotesNamed(env, sgs, n);
    }
  }

  /**
   * The key orders of a run that does not fail, which lines 97 and 99
   * iterate: group names in the order their first vote is counted, and
   * under each name the elements in the order of their first vote, where
   * votes follow the groups of the file, their sampled points and each
   * point's hits.
   */
  lemma AggregateKeyOrder(env: Env, verts: seq<Point>, gs: seq<Group>, nm: NameMapping, sgs: seq<Sampled>)
    requires Aggregate(env, verts, gs) == Ok(nm)
    requires SampleAll(verts, gs) == Ok(sgs)
    ensures nm.keys == FirstNames(AllVotes(env, sgs))
    ensures forall n :: Get(nm, n, Empty()).keys == FirstElems(AllVotes(env, sgs), n)
  {
    assert nm == Tally(AllVotes(env, sgs));
    TallyNameOrder(AllVotes(env, sgs));
    forall n
      ensures Get(nm, n, Empty()).keys == FirstElems(AllVotes(env, sgs), n)
    {
      TallyElemOrder(AllVotes(env, sgs), n);
    }
  }

  /** The aggregation fails exactly when some group's sampling does. */
  lemma AggregateSucceeds(env: Env, verts: seq<Point>, gs: seq<Group>)
    ensures Aggregate(env, verts, gs).Ok? <==> forall k :: 0 <= k < |gs| ==> Sample(verts, gs[k].faces).Ok?
  {
    SampleAllLaw(verts, gs);
  }

  /** Every error is the IndexError of a sampling. */
  lemma {:induction false} SampleAllError(verts: seq<Point>, gs: seq<Group>)
    ensures SampleAll(verts, gs).Err? ==> SampleAll(verts, gs).error == IndexError
  {
    if gs != [] {
      SampleAllError(verts, gs[..|gs| - 1]);
    }
  }

  /** One group whose sampling fails makes the whole aggregation fail with IndexError. */
  lemma AggregateFails(env: Env, verts: seq<Point>, gs: seq<Group>, i: nat)
    requires i < |gs| && Sample(verts, gs[i].faces).Err?
    ensures Aggregate(env, verts, gs) == Err(IndexError)
  {
    SampleAllLaw(verts, gs);
    SampleAllError(verts, gs);
  }

  lemma HitVotesStep(env: Env, name: Name, hs: seq<Elem>, k: nat, votes: seq<Vote>)
    requires k < |hs|
    ensures votes + HitVotes(env, name, hs[..k + 1])
         == (votes + HitVotes(env, name, hs[..k])) + HitVote(env, name, hs[k])
  {
    assert hs[..k + 1][..k] == hs[..k];
  }

  /** One more hit counted: Record for a passing element, no change for a filtered one. */
  lemma CountHitStep(env: Env, name: Name, insts: seq<Elem>, k: nat, votes: seq<Vote>, nm: NameMapping)
    requires k < |insts| && nm == Tally(votes + HitVotes(env, name, insts[..k]))
    ensures var e := Resolve(env, insts[k]);
      (Passes(env, e) ==>
        Put(nm, name, Add(Get(nm, name, Empty()), e)) == Tally(votes + HitVotes(env, name, insts[..k + 1]))) &&
      (!Passes(env, e) ==> nm == Tally(votes + HitVotes(env, name, insts[..k + 1])))
  {
    var e := Resolve(env, insts[k]);
    var counted := votes + HitVotes(env, name, insts[..k]);
    HitVotesStep(env, name, insts, k, votes);
    if Passes(env, e) {
      TallyStep(counted, Vote(name, e));
    } else {
      assert counted + [] == counted;
    }
  }

  /** `for inst in insts:` the hits of one point, counted into name_mapping. */
  method CountHits(env: Env, name: Name, insts: seq<Elem>, nameMapping: NameMapping, ghost votes: seq<Vote>)
    returns (nm: NameMapping)
    requires nameMapping == Tally(votes)
    ensures nm == Tally(votes + HitVotes(env, name, insts))
  {
    nm := nameMapping;
    assert votes + HitVotes(env, name, insts[..0]) == votes;
    var k := 0;
    while k < |insts|
      invariant 0 <= k <= |insts|
      invariant nm == Tally(votes + HitVotes(env, name, insts[..k]))
    {
      CountHitStep(env, name, insts, k, votes, nm);
      var inst := insts[k];
      if env.parent(inst).Some? {
        inst := env.parent(inst).value;
      }
      if env.elementType.None? || env.isA(inst, env.elementType.value) {
        nm := Put(nm, name, Add(Get(nm, name, Empty()), inst));
      }
      k := k + 1;
    }
    assert insts[..|insts|] == insts;
  }

  lemma PointVotesStep(env: Env, name: Name, pts: seq<Point>, j: nat, votes: seq<Vote>)
    requires j < |pts|
    ensures votes + PointVotes(env, name, pts[..j + 1])
         == (votes + PointVotes(env, name, pts[..j])) + HitVotes(env, name, env.hits(pts[j]))
  {
    assert pts[..j + 1][..j] == pts[..j];
  }

  /** `for pt in pts:` the sampled points of one group, each queried and its hits counted. */
  method CountPoints(env: Env, name: Name, pts: seq<Point>, nameMapping: NameMapping, ghost votes: seq<Vote>)
    returns (nm: NameMapping)
    requires nameMapping == Tally(votes)
    ensures nm == Tally(votes + PointVotes(env, name, pts))
  {
    nm := nameMapping;
    ghost var counted := votes;
    assert votes + PointVotes(env, name, pts[..0]) == votes;
    var j := 0;
    while j < |pts|
      invariant 0 <= j <= |pts|
      invariant counted == votes + PointVotes(env, name, pts[..j])
      invariant nm == Tally(counted)
    {
      PointVotesStep(env, name, pts, j, votes);
      var insts := env.hits(pts[j]);
      nm := CountHits(env, name, insts, nm, counted);
      counted := counted + HitVotes(env, name, insts);
      j := j + 1;
    }
    assert pts[..|pts|] == pts;
  }

  lemma SampleAllStep(verts: seq<Point>, gs: seq<Group>, i: nat, done: seq<Sampled>)
    requires i < |gs| && SampleAll(verts, gs[..i]) == Ok(done)
    requires Sample(verts, gs[i].faces).Ok?
    ensures SampleAll(verts, gs[..i + 1]) == Ok(done + [Sampled(gs[i].name, Sample(verts, gs[i].faces).value)])
  {
    assert gs[..i + 1][..i] == gs[..i];
  }

  lemma AllVotesStep(env: Env, done: seq<Sampled>, sg: Sampled)
    ensures AllVotes(env, done + [sg]) == AllVotes(env, done) + PointVotes(env, sg.name, sg.pts)
  {
    assert (done + [sg])[..|done|] == done;
  }

  lemma AggregateOk(env: Env, verts: seq<Point>, gs: seq<Group>, done: seq<Sampled>)
    requires SampleAll(verts, gs) == Ok(done)
    ensures Aggregate(env, verts, gs) == Ok(Tally(AllVotes(env, done)))
  {
  }

  /** The loop over groups(): sample each group, then count its points' hits. */
  method AggregateVotes(env: Env, verts: seq<Point>, gs: seq<Group>) returns (r: Result<NameMapping, Error>)
    ensures r == Aggregate(env, verts, gs)
  {
    var nameMapping: NameMapping := Empty();
    ghost var done: seq<Sampled> := [];
    var i := 0;
    while i < |gs|
      invariant 0 <= i <= |gs|
      invariant SampleAll(verts, gs[..i]) == Ok(done)
      invariant nameMapping == Tally(AllVotes(env, done))
    {
      var name := gs[i].name;
      var sampled := Sample(verts, gs[i].faces);
      if sampled.Err? {
        AggregateFails(env, verts, gs, i);
        return Err(IndexError);
      }
      var pts := sampled.value;
      SampleAllStep(verts, gs, i, done);
      AllVotesStep(env, done, Sampled(name, pts));
      nameMapping := CountPoints(env, name, pts, nameMapping, AllVotes(env, done));
      done := done + [Sampled(name, pts)];
      i := i + 1;
    }
    assert gs[..|gs|] == gs;
    AggregateOk(env, verts, gs, done);
    r := Ok(nameMapping);
  }
}
