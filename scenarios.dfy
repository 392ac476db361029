/**
 * Small worked examples of the correlation: one vertex inside one element, a
 * vertex far from everything, and a tie at the top of a tally.
 */
module Scenarios {
  import opened Wrappers
  import opened Dicts
  import opened Obj
  import opened Votes
  import opened Majority
  import opened Inverse
  import opened Pipeline

  /** Two vertices, one group "A" whose single face uses the first one. */
  function TwoVertexFile(): seq<Line> {
    [V(Point(0.0, 0.0, 0.0)), V(Point(10.0, 10.0, 10.0)), G("A"), F([1])]
  }

  /** The element 7 lies around the origin; nothing else is indexed. */
  function OneElementAtOrigin(): Env {
    Env(p => if p == Point(0.0, 0.0, 0.0) then [7] else [], _ => None, (_, _) => true, None)
  }

  /** The file has the one group "A" with the face (1,). */
  lemma GroupsOfTwoVertexFile()
    ensures Groups(TwoVertexFile()) == [Group(Some("A"), [[1]])]
  {
    var ls := TwoVertexFile();
    assert ls[2..][1..] == [F([1])];
    assert ls[2..][1..][1..] == [];
    assert GroupsFrom(Some("A"), [[1]], []) == [Group(Some("A"), [[1]])];
    assert [] + [[1]] == [[1]];
    assert GroupsFrom(Some("A"), [], ls[2..][1..]) == [Group(Some("A"), [[1]])];
    assert ls[1..][1..] == ls[2..];
    assert GroupsFrom(None, [], ls[2..]) == [Group(Some("A"), [[1]])];
  }

  lemma VerticesOfTwoVertexFile()
    ensures Vertices(TwoVertexFile()) == [Point(0.0, 0.0, 0.0), Point(10.0, 10.0, 10.0)]
  {
    var ls := TwoVertexFile();
    assert ls[1..][1..] == ls[2..];
    assert ls[2..][1..][1..] == [];
    assert Vertices(ls[2..][1..]) == [];
    assert Vertices(ls[2..]) == [];
    assert Vertices(ls[1..]) == [Point(10.0, 10.0, 10.0)];
  }

  /** Sampling "A" picks the first vertex. */
  lemma SampleTwoVertexFile()
    ensures SampleAll(Vertices(TwoVertexFile()), Groups(TwoVertexFile())) == Ok([Sampled(Some("A"), [Point(0.0, 0.0, 0.0)])])
  {
    var verts := [Point(0.0, 0.0, 0.0), Point(10.0, 10.0, 10.0)];
    var gs := [Group(Some("A"), [[1]])];
    VerticesOfTwoVertexFile();
    GroupsOfTwoVertexFile();
    SampleFirstVertex(verts);
    assert gs[..0] == [] && gs[..1] == gs;
    SampleAllStep(verts, gs, 0, []);
    assert [] + [Sampled(Some("A"), [verts[0]])] == [Sampled(Some("A"), [verts[0]])];
  }

  /** The face (1,) samples the first vertex. */
  lemma SampleFirstVertex(verts: seq<Point>)
    requires verts != []
    ensures Sample(verts, [[1]]) == Ok([verts[0]])
  {
    assert [[1]][1..] == [];
    assert Flatten([[1]]) == [1] + [];
    assert [1][1..] == [];
    assert NumpyAt(verts, 0) == Some(verts[0]);
    assert Gather(verts, []) == Some([]);
    assert [verts[0]] + [] == [verts[0]];
    assert Gather(verts, [1]) == Some([verts[0]]);
  }

  /** The one vote of the single match: group "A" hit element 7 once. */
  lemma SingleMatchVotes()
    ensures AllVotes(OneElementAtOrigin(), [Sampled(Some("A"), [Point(0.0, 0.0, 0.0)])]) == [Vote(Some("A"), 7)]
  {
    var env := OneElementAtOrigin();
    var sgs := [Sampled(Some("A"), [Point(0.0, 0.0, 0.0)])];
    assert sgs[..0] == [] && [Point(0.0, 0.0, 0.0)][..0] == [] && [7][..0] == [];
    assert Resolve(env, 7) == 7 && Passes(env, 7);
    assert HitVotes(env, Some("A"), [7]) == [Vote(Some("A"), 7)];
    assert PointVotes(env, Some("A"), [Point(0.0, 0.0, 0.0)]) == [Vote(Some("A"), 7)];
  }

  /** Its tally: {"A": {7: 1}}. */
  lemma SingleMatchTally()
    ensures Tally([Vote(Some("A"), 7)]) == Dict([Some("A")], map[Some("A") := Dict([7], map[7 := 1])])
  {
    var votes := [Vote(Some("A"), 7)];
    assert votes[..0] == [];
    var c := Add(Empty<Elem, nat>(), 7);
    assert c == Dict([7], map[7 := 1]);
  }

  /** The aggregation of the single match: {"A": {7: 1}}. */
  lemma SingleMatchAggregate()
    ensures Aggregate(OneElementAtOrigin(), Vertices(TwoVertexFile()), Groups(TwoVertexFile()))
         == Ok(Dict([Some("A")], map[Some("A") := Dict([7], map[7 := 1])]))
  {
    SampleTwoVertexFile();
    SingleMatchVotes();
    SingleMatchTally();
  }

  /** Inverting {"A": {7: 1}} lists "A" under 7. */
  lemma SingleMatchInvert()
    ensures Invert(Dict([Some("A")], map[Some("A") := Dict([7], map[7 := 1])])) == Dict([7], map[7 := [Some("A")]])
  {
    var nm := Dict([Some("A")], map[Some("A") := Dict([7], map[7 := 1])]);
    var c := nm.vals[Some("A")];
    assert c.keys[1..] == [];
    assert MaxCount(c) == 1;
    assert Kept(c) == [7] + [];
    assert Get(nm, Some("A"), Empty()) == c;
    assert KeptAt(nm, 0) == [7];
    var items := [Item(Some("A"), [7])];
    assert KeptItems(nm, 1) == [] + items;
    assert items[..0] == [] && [7][..0] == [];
    var empty: InverseMapping := Empty();
    assert empty == Dict([], map[]);
    assert AppendAll(empty, Some("A"), []) == empty;
    assert Append(empty, 7, Some("A")) == Dict([] + [7], map[7 := [] + [Some("A")]]);
    assert [] + [7] == [7] && [] + [Some("A")] == [Some("A")];
    assert AppendAll(empty, Some("A"), [7]) == Append(empty, 7, Some("A"));
  }

  /** The origin vertex hits element 7, so 7 is listed for "A". */
  lemma SingleMatch()
    ensures Correlate(OneElementAtOrigin(), TwoVertexFile()) == Ok(Dict([7], map[7 := [Some("A")]]))
  {
    SingleMatchAggregate();
    SingleMatchInvert();
  }

  /** A group whose vertex is far from every element is absent from the result. */
  lemma NoMatch()
    ensures Aggregate(Env(_ => [], _ => None, (_, _) => true, None), Vertices(TwoVertexFile()), Groups(TwoVertexFile()))
         == Ok(Dict([], map[]))
    ensures Correlate(Env(_ => [], _ => None, (_, _) => true, None), TwoVertexFile()) == Ok(Dict([], map[]))
  {
    var ls, env := TwoVertexFile(), Env(_ => [], _ => None, (_, _) => true, None);
    VerticesOfTwoVertexFile();
    GroupsOfTwoVertexFile();
    SampleTwoVertexFile();
    var sgs := [Sampled(Some("A"), [Point(0.0, 0.0, 0.0)])];
    assert AllVotes(env, sgs) == [];
  }

  /**
   * Part 1 of aggregate 2, itself part of 3: a hit on 1 is counted for 2,
   * not 3, because only one Decomposes relation is followed.
   */
  lemma DecomposesFollowedOnce()
    ensures var env := Env(_ => [1], e => if e == 1 then Some(2) else if e == 2 then Some(3) else None, (_, _) => true, None);
      Resolve(env, 1) == 2 && HitVotes(env, Some("A"), [1]) == [Vote(Some("A"), 2)]
  {
    var env := Env(_ => [1], e => if e == 1 then Some(2) else if e == 2 then Some(3) else None, (_, _) => true, None);
    assert [1][..0] == [];
    assert HitVotes(env, Some("A"), [1]) == [] + HitVote(env, Some("A"), 1);
  }

  /** A tally of 4 and 4 keeps both elements: 4 > 4 // 2. */
  lemma Tie()
    ensures Kept(Dict([1, 2], map[1 := 4, 2 := 4])) == [1, 2]
  {
    assert MaxCount(Dict([1, 2], map[1 := 4, 2 := 4])) == 4;
  }
}
