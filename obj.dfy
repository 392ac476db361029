/**
 * The subset of the Wavefront OBJ format that the correlation reads:
 * vertex lines `v `, group lines `g ` and face lines `f `; every other line
 * is ignored.  Lines are taken already split at their prefix, so a line is
 * a vertex position, a group name (with surrounding whitespace stripped),
 * a face (its vertex indices) or nothing of interest.
 */
module Obj {
  import opened Wrappers

  /** A vertex position; the source's floats are abstracted as reals. */
  datatype Point = Point(x: real, y: real, z: real)

  /** The name of a face group; None for faces seen before any `g ` line. */
  type Name = Option<string>

  /** The 1-based vertex indices of one `f ` line. */
  type Face = seq<int>

  datatype Line = V(p: Point) | G(group: string) | F(face: Face) | Other

  /** A group as the generator yields it: its name and the faces collected under it. */
  datatype Group = Group(name: Name, faces: seq<Face>)

  // ---------------------------------------------------------------------
  // vertices()

  /** The vertex table: the positions of the `v ` lines, in file order. */
  function Vertices(ls: seq<Line>): seq<Point> {
    if ls == [] then [] else (if ls[0].V? then [ls[0].p] else []) + Vertices(ls[1..])
  }

  /** Reading the `v ` lines one after the other into a list. */
  method ParseVertices(ls: seq<Line>) returns (verts: seq<Point>)
    ensures verts == Vertices(ls)
  {
    verts := [];
    var i := 0;
    while i < |ls|
      invariant 0 <= i <= |ls|
      invariant verts + Vertices(ls[i..]) == Vertices(ls)
    {
      VerticesStep(ls, i);
      if ls[i].V? {
        assert verts + Vertices(ls[i..]) == (verts + [ls[i].p]) + Vertices(ls[i + 1..]);
        verts := verts + [ls[i].p];
      } else {
        assert Vertices(ls[i..]) == Vertices(ls[i + 1..]);
      }
      i := i + 1;
    }
  }

  lemma VerticesStep(ls: seq<Line>, i: nat)
    requires i < |ls|
    ensures Vertices(ls[i..]) == (if ls[i].V? then [ls[i].p] else []) + Vertices(ls[i + 1..])
  {
    assert ls[i..][1..] == ls[i + 1..];
  }

  lemma {:induction false} VerticesAppend(a: seq<Line>, b: seq<Line>)
    ensures Vertices(a + b) == Vertices(a) + Vertices(b)
  {
    if a != [] {
      assert (a + b)[1..] == a[1..] + b;
      VerticesAppend(a[1..], b);
    } else {
      assert a + b == b;
    }
  }

  /**
   * The `v ` line at position j holds vertex number |Vertices(ls[..j])| + 1
   * in the 1-based numbering that faces use: the number of `v ` lines
   * before it, plus one.
   */
  lemma VertexNumbering(ls: seq<Line>, j: nat)
    requires j < |ls| && ls[j].V?
    ensures |Vertices(ls[..j])| < |Vertices(ls)|
    ensures Vertices(ls)[|Vertices(ls[..j])|] == ls[j].p
  {
    assert ls == ls[..j] + ls[j..];
    VerticesAppend(ls[..j], ls[j..]);
  }

  // ---------------------------------------------------------------------
  // groups()

  /** What is flushed when a group ends: the group, if it collected a face. */
  function Flush(name: Name, current: seq<Face>): seq<Group> {
    if current != [] then [Group(name, current)] else []
  }

  /**
   * The groups yielded for the lines ls, starting with the group name and
   * the faces collected so far.
   */
  function GroupsFrom(name: Name, current: seq<Face>, ls: seq<Line>): seq<Group>
    decreases |ls|
  {
    if ls == [] then Flush(name, current)
    else match ls[0]
      case G(n) => Flush(name, current) + GroupsFrom(Some(n), [], ls[1..])
      case F(f) => GroupsFrom(name, current + [f], ls[1..])
      case _ => GroupsFrom(name, current, ls[1..])
  }

  /** The (name, faces) pairs that groups() yields for the file ls. */
  function Groups(ls: seq<Line>): seq<Group> {
    GroupsFrom(None, [], ls)
  }

  /** The generator's loop with its `current` list and `name` variable. */
  method ParseGroups(ls: seq<Line>) returns (gs: seq<Group>)
    ensures gs == Groups(ls)
  {
    var current: seq<Face> := [];
    var name: Name := None;
    gs := [];
    var i := 0;
    while i < |ls|
      invariant 0 <= i <= |ls|
      invariant gs + GroupsFrom(name, current, ls[i..]) == Groups(ls)
    {
      assert ls[i..][1..] == ls[i + 1..];
      match ls[i] {
        case G(n) =>
          if current != [] {
            gs := gs + [Group(name, current)];
            current := [];
          }
          name := Some(n);
        case F(f) =>
          current := current + [f];
        case _ =>
      }
      i := i + 1;
    }
    if current != [] {
      gs := gs + [Group(name, current)];
    }
  }

  // A reference description of groups(): cut the file at its `g ` lines and
  // drop the pieces without faces.

  /** The faces of the `f ` lines before the first `g ` line. */
  function LeadFaces(ls: seq<Line>): seq<Face> {
    if ls == [] || ls[0].G? then []
    else (if ls[0].F? then [ls[0].face] else []) + LeadFaces(ls[1..])
  }

  /** The lines from the first `g ` line on (none when there is no `g ` line). */
  function FromFirstGroupLine(ls: seq<Line>): (r: seq<Line>)
    ensures |r| <= |ls| && (r != [] ==> r[0].G?)
  {
    if ls == [] || ls[0].G? then ls else FromFirstGroupLine(ls[1..])
  }

  /**
   * The pieces of the file between `g ` lines, empty ones included: the
   * first piece carries the given name, every later one the name on the
   * `g ` line that opens it.
   */
  function Segments(name: Name, ls: seq<Line>): seq<Group>
    decreases |ls|, 1
  {
    [Group(name, LeadFaces(ls))] + LaterSegments(ls)
  }

  /** The pieces opened by the `g ` lines of ls. */
  function LaterSegments(ls: seq<Line>): seq<Group>
    decreases |ls|, 0
  {
    var r := FromFirstGroupLine(ls);
    if r == [] then [] else Segments(Some(r[0].group), r[1..])
  }

  /** The groups of gs that have at least one face, in order. */
  function NonEmpty(gs: seq<Group>): seq<Group> {
    if gs == [] then []
    else (if gs[0].faces != [] then [gs[0]] else []) + NonEmpty(gs[1..])
  }

  /** NonEmpty keeps exactly the groups with a face. */
  lemma {:induction false} NonEmptyMembers(gs: seq<Group>)
    ensures forall g :: g in NonEmpty(gs) <==> g in gs && g.faces != []
  {
    if gs != [] {
      NonEmptyMembers(gs[1..]);
      assert gs == [gs[0]] + gs[1..];
    }
  }

  lemma {:induction false} NonEmptyAppend(a: seq<Group>, b: seq<Group>)
    ensures NonEmpty(a + b) == NonEmpty(a) + NonEmpty(b)
  {
    if a != [] {
      var head := if a[0].faces != [] then [a[0]] else [];
      assert (a + b)[0] == a[0] && (a + b)[1..] == a[1..] + b;
      assert NonEmpty(a + b) == head + NonEmpty(a[1..] + b);
      NonEmptyAppend(a[1..], b);
      assert head + (NonEmpty(a[1..]) + NonEmpty(b)) == (head + NonEmpty(a[1..])) + NonEmpty(b);
    } else {
      assert a + b == b;
    }
  }

  lemma {:induction false} GroupsFromSegments(name: Name, current: seq<Face>, ls: seq<Line>)
    ensures GroupsFrom(name, current, ls)
         == NonEmpty([Group(name, current + LeadFaces(ls))] + LaterSegments(ls))
    decreases |ls|
  {
    if ls == [] {
      assert current + [] == current;
    } else {
      match ls[0]
      case G(n) =>
        GroupsFromSegments(Some(n), [], ls[1..]);
        assert [] + LeadFaces(ls[1..]) == LeadFaces(ls[1..]);
        assert current + LeadFaces(ls) == current;
        NonEmptyAppend([Group(name, current)], Segments(Some(n), ls[1..]));
      case F(f) =>
        GroupsFromSegments(name, current + [f], ls[1..]);
        assert current + [f] + LeadFaces(ls[1..]) == current + LeadFaces(ls);
      case V(_) =>
        GroupsFromSegments(name, current, ls[1..]);
        assert LeadFaces(ls) == LeadFaces(ls[1..]);
      case Other =>
        GroupsFromSegments(name, current, ls[1..]);
        assert LeadFaces(ls) == LeadFaces(ls[1..]);
    }
  }

  /**
   * groups() yields exactly the pieces between `g ` lines that have at least
   * one face, in file order: the faces before the first `g ` line under the
   * name None, every later piece under the name of its `g ` line, so a `g `
   * line that follows a group without faces replaces that group's name, and
   * the last piece is yielded at the end of the input.
   */
  lemma GroupsAreNonEmptySegments(ls: seq<Line>)
    ensures Groups(ls) == NonEmpty(Segments(None, ls))
  {
    GroupsFromSegments(None, [], ls);
    assert [] + LeadFaces(ls) == LeadFaces(ls);
  }

  /** Every yielded group has at least one face. */
  lemma GroupsHaveFaces(ls: seq<Line>)
    ensures forall g :: g in Groups(ls) ==> g.faces != []
  {
    GroupsAreNonEmptySegments(ls);
    NonEmptyMembers(Segments(None, ls));
  }

  /** The faces of the `f ` lines, in file order. */
  function FaceLines(ls: seq<Line>): seq<Face> {
    if ls == [] then [] else (if ls[0].F? then [ls[0].face] else []) + FaceLines(ls[1..])
  }

  /** The face lists of gs, one after the other. */
  function AllFaces(gs: seq<Group>): seq<Face> {
    if gs == [] then [] else gs[0].faces + AllFaces(gs[1..])
  }

  /** A face is listed by FaceLines exactly when the file has an `f ` line for it. */
  lemma {:induction false} FaceLinesMembers(ls: seq<Line>)
    ensures forall f :: f in FaceLines(ls) <==> F(f) in ls
  {
    if ls != [] {
      FaceLinesMembers(ls[1..]);
      assert ls == [ls[0]] + ls[1..];
    }
  }

  /** A face is in AllFaces(gs) exactly when one of the groups holds it. */
  lemma {:induction false} AllFacesMembers(gs: seq<Group>)
    ensures forall f :: f in AllFaces(gs) <==> exists g :: g in gs && f in g.faces
  {
    if gs != [] {
      AllFacesMembers(gs[1..]);
      assert gs == [gs[0]] + gs[1..];
    }
  }

  lemma {:induction false} AllFacesAppend(a: seq<Group>, b: seq<Group>)
    ensures AllFaces(a + b) == AllFaces(a) + AllFaces(b)
  {
    if a != [] {
      assert (a + b)[1..] == a[1..] + b;
      AllFacesAppend(a[1..], b);
    } else {
      assert a + b == b;
    }
  }

  lemma FlushFaces(name: Name, current: seq<Face>)
    ensures AllFaces(Flush(name, current)) == current
  {
    if current != [] {
      assert AllFaces([Group(name, current)]) == current + AllFaces([]);
    }
  }

  lemma FlushThenFaces(name: Name, current: seq<Face>, later: seq<Group>)
    ensures AllFaces(Flush(name, current) + later) == current + AllFaces(later)
  {
    AllFacesAppend(Flush(name, current), later);
    FlushFaces(name, current);
  }

  /** A `g ` line: the collected faces come first, then those of the new group. */
  lemma GroupLineFaces(name: Name, current: seq<Face>, ls: seq<Line>)
    requires ls != [] && ls[0].G?
    requires AllFaces(GroupsFrom(Some(ls[0].group), [], ls[1..])) == FaceLines(ls[1..])
    ensures AllFaces(GroupsFrom(name, current, ls)) == current + FaceLines(ls)
  {
    var later := GroupsFrom(Some(ls[0].group), [], ls[1..]);
    assert GroupsFrom(name, current, ls) == Flush(name, current) + later;
    assert FaceLines(ls) == FaceLines(ls[1..]);
    FlushThenFaces(name, current, later);
  }

  /** An `f ` line: its face joins the collected ones. */
  lemma FaceLineFaces(name: Name, current: seq<Face>, ls: seq<Line>)
    requires ls != [] && ls[0].F?
    requires AllFaces(GroupsFrom(name, current + [ls[0].face], ls[1..])) == (current + [ls[0].face]) + FaceLines(ls[1..])
    ensures AllFaces(GroupsFrom(name, current, ls)) == current + FaceLines(ls)
  {
    assert (current + [ls[0].face]) + FaceLines(ls[1..]) == current + ([ls[0].face] + FaceLines(ls[1..]));
  }

  /** Any other line changes nothing. */
  lemma OtherLineFaces(name: Name, current: seq<Face>, ls: seq<Line>)
    requires ls != [] && !ls[0].G? && !ls[0].F?
    requires AllFaces(GroupsFrom(name, current, ls[1..])) == current + FaceLines(ls[1..])
    ensures AllFaces(GroupsFrom(name, current, ls)) == current + FaceLines(ls)
  {
    assert GroupsFrom(name, current, ls) == GroupsFrom(name, current, ls[1..]);
    assert FaceLines(ls) == FaceLines(ls[1..]);
  }

  lemma {:induction false} GroupsFromFaces(name: Name, current: seq<Face>, ls: seq<Line>)
    ensures AllFaces(GroupsFrom(name, current, ls)) == current + FaceLines(ls)
    decreases |ls|
  {
    if ls == [] {
      FlushFaces(name, current);
    } else if ls[0].G? {
      GroupsFromFaces(Some(ls[0].group), [], ls[1..]);
      GroupLineFaces(name, current, ls);
    } else if ls[0].F? {
      GroupsFromFaces(name, current + [ls[0].face], ls[1..]);
      FaceLineFaces(name, current, ls);
    } else {
      GroupsFromFaces(name, current, ls[1..]);
      OtherLineFaces(name, current, ls);
    }
  }

  /**
   * No face is lost, duplicated or reordered: the yielded face lists, one
   * after the other, are the `f ` lines of the file in order.
   */
  lemma GroupsKeepAllFaces(ls: seq<Line>)
    ensures AllFaces(Groups(ls)) == FaceLines(ls)
  {
    GroupsFromFaces(None, [], ls);
  }

  // ---------------------------------------------------------------------
  // The material header put in front of the file before it is converted.

  const MtlLib: string := "mtllib colours.mtl\n"
  const UseMtl: string := "usemtl red\n"

  /** Whether a raw line starts with one of the prefixes the two readers look for. */
  predicate Recognised(l: string) {
    |l| >= 2 && l[1] == ' ' && (l[0] == 'v' || l[0] == 'g' || l[0] == 'f')
  }

  /** list.insert(i, x) for a non-negative i: an index past the end appends. */
  function Insert<T>(s: seq<T>, i: nat, x: T): (r: seq<T>)
    ensures |r| == |s| + 1
    ensures var j := if i <= |s| then i else |s|;
      r[..j] == s[..j] && r[j] == x && r[j + 1..] == s[j..]
  {
    var j := if i <= |s| then i else |s|;
    s[..j] + [x] + s[j..]
  }

  /**
   * The two inserts into the list of raw lines: the result is the two
   * material lines followed by the original lines, and neither material
   * line is one the readers recognise.
   */
  method AddMaterialHeader(ls: seq<string>) returns (out: seq<string>)
    ensures out == [MtlLib, UseMtl] + ls
    ensures !Recognised(out[0]) && !Recognised(out[1])
  {
    out := Insert(ls, 0, MtlLib);
    out := Insert(out, 1, UseMtl);
  }

  /**
   * Lines the readers ignore, put in front of a file, change neither its
   * vertex table nor its groups: the rewritten file parses as before.
   */
  lemma {:induction false} IgnoredLinesKeepParse(pre: seq<Line>, ls: seq<Line>)
    requires forall k :: 0 <= k < |pre| ==> pre[k].Other?
    ensures Vertices(pre + ls) == Vertices(ls)
    ensures Groups(pre + ls) == Groups(ls)
  {
    if pre != [] {
      assert (pre + ls)[1..] == pre[1..] + ls;
      IgnoredLinesKeepParse(pre[1..], ls);
    } else {
      assert pre + ls == ls;
    }
  }
}
