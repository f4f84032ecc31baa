/** The STL repair tool: cleaning a loaded mesh of stray components and
    degenerate triangles, a bounded loop of standard repair passes, an aggressive
    fallback ladder that tries ever coarser ways of making the mesh watertight, and
    the validity verdict. The mesh library's own operations (deduplication, component
    split, hole filling, normal fixing, convex hull, voxel remeshing) and its checks
    come in as parameters; what the tool decides around them is modelled here. */
module Repair {
  import opened Mesh
  import opened Paths

  // ----- the mesh library -----

  /** The library's checks of a mesh. */
  datatype Inspector = Inspector(
    watertight: MeshData -> bool, windingConsistent: MeshData -> bool, isEmpty: MeshData -> bool)

  /** The library's repair steps. A hull or voxel step that raises, or yields no mesh,
      gives `None`. */
  datatype Toolkit = Toolkit(
    dedupe: MeshData -> MeshData,
    split: MeshData -> seq<MeshData>,
    fillHoles: MeshData -> MeshData,
    removeUnreferenced: MeshData -> MeshData,
    fixNormals: MeshData -> MeshData,
    process: MeshData -> MeshData,
    convexHull: MeshData -> Option<MeshData>,
    voxelRemesh: MeshData -> Option<MeshData>)

  // ----- ranking the components -----

  /** A component's position in the split and its face count. */
  datatype Entry = Entry(index: int, size: nat)

  function Entries(cs: seq<MeshData>): seq<Entry>
  {
    seq(|cs|, i requires 0 <= i < |cs| => Entry(i, |cs[i].faces|))
  }

  /** `a` is ranked before `b`: it is larger, or as large and earlier in the split. */
  predicate Before(a: Entry, b: Entry)
  {
    a.size > b.size || (a.size == b.size && a.index < b.index)
  }

  predicate Ranked(s: seq<Entry>)
  {
    forall i, j :: 0 <= i < j < |s| ==> Before(s[i], s[j])
  }

  function Insert(e: Entry, s: seq<Entry>): seq<Entry>
  {
    if |s| == 0 then [e]
    else if s[0].size >= e.size then [s[0]] + Insert(e, s[1..])
    else [e] + s
  }

  /** The stable sort by face count, largest first, that ranks the components. */
  function SortBySize(es: seq<Entry>): seq<Entry>
  {
    if |es| == 0 then [] else Insert(es[|es| - 1], SortBySize(es[..|es| - 1]))
  }

  lemma {:induction false} InsertPermutes(e: Entry, s: seq<Entry>)
    ensures multiset(Insert(e, s)) == multiset(s) + multiset{e} && |Insert(e, s)| == |s| + 1
  {
    if |s| > 0 && s[0].size >= e.size {
      InsertPermutes(e, s[1..]);
      assert s == [s[0]] + s[1..];
    }
  }

  /** Inserting an entry later in the split than every ranked one keeps the ranking. */
  lemma {:induction false} InsertRanked(e: Entry, s: seq<Entry>)
    requires Ranked(s) && forall k :: 0 <= k < |s| ==> s[k].index < e.index
    ensures Ranked(Insert(e, s))
  {
    if |s| > 0 && s[0].size >= e.size {
      var rest := s[1..];
      InsertRanked(e, rest);
      InsertPermutes(e, rest);
      var r := Insert(e, s);
      forall j | 0 < j < |r|
        ensures Before(s[0], r[j])
      {
        assert r[j] in multiset(rest) + multiset{e};
        if r[j] != e {
          assert r[j] in rest;
          var k :| 0 <= k < |rest| && rest[k] == r[j];
          assert s[k + 1] == r[j];
        }
      }
    }
  }

  /** Entries listed in split order. */
  predicate Increasing(es: seq<Entry>)
  {
    forall i, j :: 0 <= i < j < |es| ==> es[i].index < es[j].index
  }

  /** The sort ranks the entries (largest first, ties in split order) and only
      reorders them. */
  lemma {:induction false} SortBySizeRanks(es: seq<Entry>)
    requires Increasing(es)
    ensures Ranked(SortBySize(es)) && multiset(SortBySize(es)) == multiset(es) && |SortBySize(es)| == |es|
  {
    if |es| > 0 {
      var prefix, e := es[..|es| - 1], es[|es| - 1];
      SortBySizeRanks(prefix);
      var s := SortBySize(prefix);
      forall k | 0 <= k < |s|
        ensures s[k].index < e.index
      {
        assert s[k] in multiset(prefix);
        var i :| 0 <= i < |prefix| && prefix[i] == s[k];
      }
      InsertRanked(e, s);
      InsertPermutes(e, s);
      assert es == prefix + [e];
    }
  }

  /** The ranking of the components. */
  function Ranking(cs: seq<MeshData>): seq<Entry>
  {
    SortBySize(Entries(cs))
  }

  /** An entry belongs to the ranking exactly when it is some component's own. */
  lemma RankingEntries(cs: seq<MeshData>, e: Entry)
    ensures Ranked(Ranking(cs)) && |Ranking(cs)| == |cs|
    ensures e in Ranking(cs) <==> 0 <= e.index < |cs| && e.size == |cs[e.index].faces|
  {
    var es := Entries(cs);
    SortBySizeRanks(es);
    assert e in Ranking(cs) <==> e in multiset(es);
    if 0 <= e.index < |cs| && e.size == |cs[e.index].faces| {
      assert es[e.index] == e;
    }
  }

  /** The first ranked component is a largest one, and the earliest of the largest in
      the split. */
  lemma LargestFirst(cs: seq<MeshData>, i: int)
    requires 0 <= i < |cs|
    ensures var top := Ranking(cs)[0];
      0 <= top.index < |cs| && top.size == |cs[top.index].faces| && |cs[i].faces| <= top.size &&
      (|cs[i].faces| == top.size ==> top.index <= i)
  {
    var r := Ranking(cs);
    RankingEntries(cs, Entry(i, |cs[i].faces|));
    RankingEntries(cs, r[0]);
    var k :| 0 <= k < |r| && r[k] == Entry(i, |cs[i].faces|);
    if k > 0 {
      assert Before(r[0], r[k]);
    }
  }

  // ----- keeping the main components -----

  /** At least 20 percent of the largest component's face count. */
  predicate Keeps(size: nat, mainSize: nat)
  {
    size as real >= mainSize as real * 0.2
  }

  lemma KeepsExactly(size: nat, mainSize: nat)
    ensures Keeps(size, mainSize) <==> 5 * size >= mainSize
  {
  }

  /** The indices of the ranked entries that are kept, in ranking order. */
  function MainIndices(ranked: seq<Entry>, mainSize: nat): seq<int>
  {
    if |ranked| == 0 then []
    else
      var e := ranked[|ranked| - 1];
      MainIndices(ranked[..|ranked| - 1], mainSize) + (if Keeps(e.size, mainSize) then [e.index] else [])
  }

  /** The indices of the ranked entries that are dropped as artifacts. */
  function ArtifactIndices(ranked: seq<Entry>, mainSize: nat): seq<int>
  {
    if |ranked| == 0 then []
    else
      var e := ranked[|ranked| - 1];
      ArtifactIndices(ranked[..|ranked| - 1], mainSize) + (if Keeps(e.size, mainSize) then [] else [e.index])
  }

  /** The classification loop over the ranked components. */
  method Classify(ranked: seq<Entry>, mainSize: nat) returns (main: seq<int>, artifacts: seq<int>)
    ensures main == MainIndices(ranked, mainSize) && artifacts == ArtifactIndices(ranked, mainSize)
  {
    main, artifacts := [], [];
    var k := 0;
    while k < |ranked|
      invariant 0 <= k <= |ranked|
      invariant main == MainIndices(ranked[..k], mainSize) && artifacts == ArtifactIndices(ranked[..k], mainSize)
    {
      assert ranked[..k + 1][..k] == ranked[..k];
      var e := ranked[k];
      if e.size as real >= mainSize as real * 0.2 {
        main := main + [e.index];
      } else {
        artifacts := artifacts + [e.index];
      }
      k := k + 1;
    }
    assert ranked[..k] == ranked;
  }

  /** Some ranked entry carries index `x`. */
  predicate Listed(ranked: seq<Entry>, x: int)
  {
    exists k :: 0 <= k < |ranked| && ranked[k].index == x
  }

  /** An index is kept (dropped) exactly when it is listed with a size that passes
      (fails) the threshold, provided each index comes with one size. */
  lemma {:induction false} ClassifiedMembers(ranked: seq<Entry>, mainSize: nat, x: int, size: nat)
    requires forall k :: 0 <= k < |ranked| && ranked[k].index == x ==> ranked[k].size == size
    ensures x in MainIndices(ranked, mainSize) <==> Listed(ranked, x) && Keeps(size, mainSize)
    ensures x in ArtifactIndices(ranked, mainSize) <==> Listed(ranked, x) && !Keeps(size, mainSize)
    ensures |MainIndices(ranked, mainSize)| + |ArtifactIndices(ranked, mainSize)| == |ranked|
  {
    if |ranked| > 0 {
      var prefix := ranked[..|ranked| - 1];
      ClassifiedMembers(prefix, mainSize, x, size);
      if Listed(ranked, x) {
        var k :| 0 <= k < |ranked| && ranked[k].index == x;
        if k < |prefix| {
          assert prefix[k] == ranked[k];
        }
      }
      if Listed(prefix, x) {
        var k :| 0 <= k < |prefix| && prefix[k].index == x;
        assert ranked[k] == prefix[k];
      }
    }
  }

  /** When the first ranked entry is kept, its index heads the kept list. */
  lemma {:induction false} MainHead(ranked: seq<Entry>, mainSize: nat)
    requires |ranked| > 0 && Keeps(ranked[0].size, mainSize)
    ensures |MainIndices(ranked, mainSize)| > 0 && MainIndices(ranked, mainSize)[0] == ranked[0].index
  {
    if |ranked| > 1 {
      var prefix := ranked[..|ranked| - 1];
      assert prefix[0] == ranked[0];
      MainHead(prefix, mainSize);
    }
  }

  /** The component split into main components and artifacts: every component lands in
      exactly one of the two lists, it is a main component exactly when it has at least
      20 percent of the largest one's faces, and the largest one (the earliest, on a
      tie) is always kept and listed first. */
  lemma ComponentsClassified(cs: seq<MeshData>, i: int)
    requires 0 <= i < |cs|
    ensures var ranked := Ranking(cs);
      var mainSize := ranked[0].size;
      var main, artifacts := MainIndices(ranked, mainSize), ArtifactIndices(ranked, mainSize);
      (i in main <==> Keeps(|cs[i].faces|, mainSize)) && (i in artifacts <==> !Keeps(|cs[i].faces|, mainSize)) &&
      |main| + |artifacts| == |cs| && |main| > 0 && main[0] == ranked[0].index &&
      (forall x :: x in main ==> 0 <= x < |cs|)
  {
    var ranked := Ranking(cs);
    RankingEntries(cs, Entry(i, |cs[i].faces|));
    LargestFirst(cs, i);
    var mainSize := ranked[0].size;
    forall k | 0 <= k < |ranked| && ranked[k].index == i
      ensures ranked[k].size == |cs[i].faces|
    {
      RankingEntries(cs, ranked[k]);
    }
    ClassifiedMembers(ranked, mainSize, i, |cs[i].faces|);
    var k :| 0 <= k < |ranked| && ranked[k] == Entry(i, |cs[i].faces|);
    MainHead(ranked, mainSize);
    forall x | x in MainIndices(ranked, mainSize)
      ensures 0 <= x < |cs|
    {
      MainListed(ranked, mainSize, x);
      var j :| 0 <= j < |ranked| && ranked[j].index == x;
      RankingEntries(cs, ranked[j]);
    }
  }

  lemma {:induction false} MainListed(ranked: seq<Entry>, mainSize: nat, x: int)
    requires x in MainIndices(ranked, mainSize)
    ensures Listed(ranked, x)
  {
    var prefix := ranked[..|ranked| - 1];
    if x in MainIndices(prefix, mainSize) {
      MainListed(prefix, mainSize, x);
      var k :| 0 <= k < |prefix| && prefix[k].index == x;
      assert ranked[k] == prefix[k];
    } else {
      assert ranked[|ranked| - 1].index == x;
    }
  }

  // ----- joining components -----

  /** The faces of `fs` renumbered `k` places up. */
  function ShiftAll(fs: seq<Face>, k: int): seq<Face>
  {
    seq(|fs|, i requires 0 <= i < |fs| => Shift(fs[i], k))
  }

  function Append(a: MeshData, b: MeshData): MeshData
  {
    MeshData(a.vertices + b.vertices, a.faces + ShiftAll(b.faces, |a.vertices|))
  }

  /** The library's concatenation: the vertex lists one after the other, each mesh's
      faces renumbered past the vertices before it. */
  function Concatenate(cs: seq<MeshData>): MeshData
  {
    if |cs| == 0 then MeshData([], []) else Append(Concatenate(cs[..|cs| - 1]), cs[|cs| - 1])
  }

  function FaceTotal(cs: seq<MeshData>): nat
  {
    if |cs| == 0 then 0 else FaceTotal(cs[..|cs| - 1]) + |cs[|cs| - 1].faces|
  }

  /** Concatenating well-formed meshes gives a well-formed mesh holding all their
      faces, each component's faces pointing at that component's own vertices. */
  lemma {:induction false} ConcatenateWellFormed(cs: seq<MeshData>)
    requires forall k :: 0 <= k < |cs| ==> WellFormed(cs[k])
    ensures WellFormed(Concatenate(cs)) && |Concatenate(cs).faces| == FaceTotal(cs)
  {
    if |cs| > 0 {
      var prefix, last := cs[..|cs| - 1], cs[|cs| - 1];
      ConcatenateWellFormed(prefix);
      var a := Concatenate(prefix);
      var shifted := ShiftAll(last.faces, |a.vertices|);
      var r := Append(a, last);
      forall i | 0 <= i < |r.faces|
        ensures InRange(r.faces[i], |r.vertices|)
      {
        if i < |a.faces| {
          assert r.faces[i] == a.faces[i];
        } else {
          assert r.faces[i] == shifted[i - |a.faces|];
        }
      }
    }
  }

  function Pick(cs: seq<MeshData>, i: int): MeshData
  {
    if 0 <= i < |cs| then cs[i] else MeshData([], [])
  }

  /** The component step of cleaning: with more than one component, and some dropped,
      the single main component or the concatenation of the main ones in ranking order;
      otherwise the mesh itself. */
  function Filtered(m: MeshData, cs: seq<MeshData>): MeshData
  {
    if |cs| <= 1 then m
    else
      var ranked := Ranking(cs);
      var main := MainIndices(ranked, ranked[0].size);
      if |main| < |cs| then
        var kept := seq(|main|, k requires 0 <= k < |main| => Pick(cs, main[k]));
        if |kept| == 1 then kept[0] else Concatenate(kept)
      else m
  }

  /** Nothing is dropped exactly when every component has at least 20 percent of the
      largest one's faces. */
  lemma NothingDropped(cs: seq<MeshData>)
    requires |cs| >= 1
    ensures var ranked := Ranking(cs);
      |MainIndices(ranked, ranked[0].size)| == |cs| <==> forall i :: 0 <= i < |cs| ==> Keeps(|cs[i].faces|, ranked[0].size)
  {
    var ranked := Ranking(cs);
    var mainSize := ranked[0].size;
    var main, artifacts := MainIndices(ranked, mainSize), ArtifactIndices(ranked, mainSize);
    ComponentsClassified(cs, 0);
    if |main| == |cs| {
      forall i | 0 <= i < |cs|
        ensures Keeps(|cs[i].faces|, mainSize)
      {
        ComponentsClassified(cs, i);
      }
    } else {
      var x := artifacts[0];
      ArtifactListed(ranked, mainSize, x);
      var j :| 0 <= j < |ranked| && ranked[j].index == x;
      RankingEntries(cs, ranked[j]);
      ComponentsClassified(cs, x);
    }
  }

  /** When some component is dropped, the result is made of the kept ones, in
      ranking order: the largest alone when it is the only one kept, otherwise their
      concatenation, well formed when they are and holding all their faces. */
  lemma FilteredKept(m: MeshData, cs: seq<MeshData>)
    requires forall k :: 0 <= k < |cs| ==> WellFormed(cs[k])
    requires |cs| > 1
    ensures var ranked := Ranking(cs);
      var main := MainIndices(ranked, ranked[0].size);
      var kept := seq(|main|, k requires 0 <= k < |main| => Pick(cs, main[k]));
      |main| < |cs| ==>
        (WellFormed(Filtered(m, cs)) && |Filtered(m, cs).faces| == FaceTotal(kept) &&
         (forall k :: 0 <= k < |kept| ==> 0 <= main[k] < |cs| && kept[k] == cs[main[k]] && Keeps(|kept[k].faces|, ranked[0].size)) &&
         (|main| == 1 ==> Filtered(m, cs) == Pick(cs, ranked[0].index)))
  {
    var ranked := Ranking(cs);
    var mainSize := ranked[0].size;
    var main := MainIndices(ranked, mainSize);
    if |main| < |cs| {
      ComponentsClassified(cs, 0);
      var kept := seq(|main|, k requires 0 <= k < |main| => Pick(cs, main[k]));
      forall k | 0 <= k < |kept|
        ensures 0 <= main[k] < |cs| && kept[k] == cs[main[k]] && Keeps(|kept[k].faces|, mainSize) && WellFormed(kept[k])
      {
        assert main[k] in main;
        ComponentsClassified(cs, main[k]);
      }
      ConcatenateWellFormed(kept);
      if |kept| == 1 {
        assert FaceTotal(kept) == FaceTotal(kept[..0]) + |kept[0].faces|;
      }
    }
  }

  lemma {:induction false} ArtifactListed(ranked: seq<Entry>, mainSize: nat, x: int)
    requires x in ArtifactIndices(ranked, mainSize)
    ensures Listed(ranked, x)
  {
    var prefix := ranked[..|ranked| - 1];
    if x in ArtifactIndices(prefix, mainSize) {
      ArtifactListed(prefix, mainSize, x);
      var k :| 0 <= k < |prefix| && prefix[k].index == x;
      assert ranked[k] == prefix[k];
    } else {
      assert ranked[|ranked| - 1].index == x;
    }
  }

  // ----- dropping degenerate triangles -----

  /** The smallest triangle area the cleaner keeps (exclusive). */
  const AreaTolerance: real := 0.00000001

  /** The face's triangle has area above the tolerance: half the length of the cross
      product of two sides exceeds it, which is the squared length exceeding four times
      its square. */
  predicate LargeEnough(vs: seq<Vertex>, f: Face)
  {
    InRange(f, |vs|) &&
    var n := Cross(Sub(vs[f.b], vs[f.a]), Sub(vs[f.c], vs[f.a]));
    Dot(n, n) > 4.0 * AreaTolerance * AreaTolerance
  }

  /** The faces whose triangles are large enough, in their order. */
  function ProperFaces(vs: seq<Vertex>, fs: seq<Face>): seq<Face>
  {
    if |fs| == 0 then []
    else ProperFaces(vs, fs[..|fs| - 1]) + (if LargeEnough(vs, fs[|fs| - 1]) then [fs[|fs| - 1]] else [])
  }

  /** A triangle with a repeated corner has a zero cross product. */
  lemma LargeEnoughNonDegenerate(vs: seq<Vertex>, f: Face)
    requires LargeEnough(vs, f)
    ensures NonDegenerate(f)
  {
  }

  /** The degenerate-triangle step, as intended, keeps exactly the faces whose triangles are large
      enough, in order; they are all proper triangles over the unchanged vertices. */
  lemma {:induction false} ProperFacesSpec(vs: seq<Vertex>, fs: seq<Face>, f: Face)
    ensures f in ProperFaces(vs, fs) <==> f in fs && LargeEnough(vs, f)
    ensures |ProperFaces(vs, fs)| <= |fs|
    ensures AllInRange(ProperFaces(vs, fs), |vs|) && AllNonDegenerate(ProperFaces(vs, fs))
  {
    if |fs| > 0 {
      var prefix := fs[..|fs| - 1];
      ProperFacesSpec(vs, prefix, f);
      assert fs == prefix + [fs[|fs| - 1]];
      var r := ProperFaces(vs, fs);
      forall k | 0 <= k < |r|
        ensures InRange(r[k], |vs|) && NonDegenerate(r[k])
      {
        if k < |ProperFaces(vs, prefix)| {
          assert r[k] == ProperFaces(vs, prefix)[k];
        } else {
          LargeEnoughNonDegenerate(vs, r[k]);
        }
      }
    }
  }

  /** The degenerate-triangle step on a mesh with faces. */
  function DropDegenerate(m: MeshData): MeshData
  {
    if |m.faces| > 0 then MeshData(m.vertices, ProperFaces(m.vertices, m.faces)) else m
  }

  /** Every face's triangle is large enough: the cleaner's `np.all(valid_faces)`. */
  predicate AllLargeEnough(vs: seq<Vertex>, fs: seq<Face>)
  {
    forall k :: 0 <= k < |fs| ==> LargeEnough(vs, fs[k])
  }

  /** The filter leaves the face list as it is exactly when every triangle is large
      enough, and drops a face otherwise. */
  lemma {:induction false} ProperFacesKeepsAll(vs: seq<Vertex>, fs: seq<Face>)
    ensures ProperFaces(vs, fs) == fs <==> AllLargeEnough(vs, fs)
    ensures !AllLargeEnough(vs, fs) ==> |ProperFaces(vs, fs)| < |fs|
  {
    if |fs| > 0 {
      var prefix := fs[..|fs| - 1];
      ProperFacesKeepsAll(vs, prefix);
      ProperFacesSpec(vs, prefix, fs[0]);
      assert fs == prefix + [fs[|fs| - 1]];
      if AllLargeEnough(vs, fs) {
        assert AllLargeEnough(vs, prefix) by {
          forall k | 0 <= k < |prefix| ensures LargeEnough(vs, prefix[k]) { assert prefix[k] == fs[k]; }
        }
      } else if !LargeEnough(vs, fs[|fs| - 1]) {
        assert ProperFaces(vs, fs) == ProperFaces(vs, prefix);
      } else {
        assert !AllLargeEnough(vs, prefix) by {
          var k :| 0 <= k < |fs| && !LargeEnough(vs, fs[k]);
          assert prefix[k] == fs[k];
        }
      }
    }
  }

  /** No face's triangle is large enough: every entry of `valid_faces` is false. */
  predicate NoneLargeEnough(vs: seq<Vertex>, fs: seq<Face>)
  {
    forall k :: 0 <= k < |fs| ==> !LargeEnough(vs, fs[k])
  }

  /** The filter leaves no face exactly when no triangle is large enough. */
  lemma ProperFacesNone(vs: seq<Vertex>, fs: seq<Face>)
    ensures ProperFaces(vs, fs) == [] <==> NoneLargeEnough(vs, fs)
  {
    if ProperFaces(vs, fs) == [] {
      forall k | 0 <= k < |fs| ensures !LargeEnough(vs, fs[k]) {
        ProperFacesSpec(vs, fs, fs[k]);
      }
    } else {
      var f := ProperFaces(vs, fs)[0];
      ProperFacesSpec(vs, fs, f);
      var k :| 0 <= k < |fs| && fs[k] == f;
    }
  }

  // ----- the degenerate-triangle step as written -----

  /** The degenerate-triangle step as the cleaner writes it. The call hands
      `update_faces` the kept faces' vertex triples (`faces[valid_faces]`) where the
      library expects a face mask, as the deduplication step gives it
      (`unique_faces()`); the library then indexes the face array with those vertex
      numbers. When every face is large enough the call is skipped. When none is, the
      index array is empty and the faces are cleared, as the filter would. When some
      but not all faces are dropped, the call raises once a vertex number reaches the
      face count and otherwise leaves an array of triples of triples, never the
      filtered face list: no mesh. */
  function AsWrittenDropDegenerate(m: MeshData): Option<MeshData>
  {
    if AllLargeEnough(m.vertices, m.faces) then Some(m)
    else if NoneLargeEnough(m.vertices, m.faces) then Some(MeshData(m.vertices, []))
    else None
  }

  /** The step as written and the intended filter agree exactly when every face is
      large enough or none is; when only some faces are too small, the intended filter
      keeps a shorter, non-empty face list and the step as written yields no mesh. */
  lemma AsWrittenAgrees(m: MeshData)
    ensures AsWrittenDropDegenerate(m) == Some(DropDegenerate(m)) <==>
      AllLargeEnough(m.vertices, m.faces) || NoneLargeEnough(m.vertices, m.faces)
    ensures AsWrittenDropDegenerate(m).None? ==> 0 < |DropDegenerate(m).faces| < |m.faces|
  {
    ProperFacesKeepsAll(m.vertices, m.faces);
    ProperFacesNone(m.vertices, m.faces);
  }

  /** A two-face mesh whose first triangle is too small and whose second is not. */
  lemma SecondKept(vs: seq<Vertex>, fs: seq<Face>)
    requires |fs| == 2 && !LargeEnough(vs, fs[0]) && LargeEnough(vs, fs[1])
    ensures ProperFaces(vs, fs) == [fs[1]]
    ensures AsWrittenDropDegenerate(MeshData(vs, fs)).None?
  {
    assert fs[..1][..0] == [];
    assert ProperFaces(vs, fs[..1]) == [];
    assert fs[..1] + [fs[1]] == fs;
    assert !AllLargeEnough(vs, fs) && !NoneLargeEnough(vs, fs);
  }

  /** Three corners on a line make a flat triangle; the right triangle `[0, 1, 3]` has
      area one half. */
  lemma WitnessAreas(vs: seq<Vertex>)
    requires |vs| == 4 && vs[0] == Vertex(0.0, 0.0, 0.0) && vs[1] == Vertex(1.0, 0.0, 0.0)
    requires vs[2] == Vertex(2.0, 0.0, 0.0) && vs[3] == Vertex(0.0, 1.0, 0.0)
    ensures !LargeEnough(vs, Face(0, 1, 2)) && LargeEnough(vs, Face(0, 1, 3))
  {
  }

  /** A flat triangle beside a proper one: the intended filter keeps the proper one,
      `[0, 1, 3]`, whose last vertex number indexes past the two face rows, so the step
      as written yields no mesh. */
  lemma PartlyFlatLost(vs: seq<Vertex>, fs: seq<Face>)
    requires |vs| == 4 && vs[0] == Vertex(0.0, 0.0, 0.0) && vs[1] == Vertex(1.0, 0.0, 0.0)
    requires vs[2] == Vertex(2.0, 0.0, 0.0) && vs[3] == Vertex(0.0, 1.0, 0.0)
    requires |fs| == 2 && fs[0] == Face(0, 1, 2) && fs[1] == Face(0, 1, 3)
    ensures AsWrittenDropDegenerate(MeshData(vs, fs)).None?
    ensures DropDegenerate(MeshData(vs, fs)).faces == [fs[1]]
  {
    WitnessAreas(vs);
    SecondKept(vs, fs);
  }

  // ----- cleaning -----

  /** The cleaned model: deduplicated, reduced to its main components and rid of its
      degenerate triangles. */
  function CleanedMesh(m: MeshData, tk: Toolkit): MeshData
  {
    var d := tk.dedupe(m);
    DropDegenerate(Filtered(d, tk.split(d)))
  }

  /** The cleaning routine, with its component loop and classification. */
  method CleanModel(m: MeshData, tk: Toolkit) returns (r: MeshData)
    ensures r == CleanedMesh(m, tk)
  {
    var mesh := tk.dedupe(m);
    var components := tk.split(mesh);
    if |components| > 1 {
      var sizes: seq<Entry> := [];
      var i := 0;
      while i < |components|
        invariant 0 <= i <= |components|
        invariant sizes == Entries(components)[..i]
      {
        sizes := sizes + [Entry(i, |components[i].faces|)];
        i := i + 1;
      }
      assert sizes == Entries(components);
      var ranked := SortBySize(sizes);
      RankingEntries(components, Entry(0, |components[0].faces|));
      var mainSize := ranked[0].size;
      var main, artifacts := Classify(ranked, mainSize);
      if |main| < |components| {
        var kept := seq(|main|, k requires 0 <= k < |main| => Pick(components, main[k]));
        if |kept| == 1 {
          mesh := kept[0];
        } else {
          mesh := Concatenate(kept);
        }
      }
    }
    if |mesh.faces| > 0 {
      mesh := MeshData(mesh.vertices, ProperFaces(mesh.vertices, mesh.faces));
    }
    r := mesh;
  }

  /** A cleaned model is well formed and holds proper triangles only, each of area
      above the tolerance; its vertices are those of the component step. */
  lemma CleanedProper(m: MeshData, tk: Toolkit)
    ensures var r := CleanedMesh(m, tk);
      WellFormed(r) && AllNonDegenerate(r.faces) && forall k :: 0 <= k < |r.faces| ==> LargeEnough(r.vertices, r.faces[k])
  {
    var d := tk.dedupe(m);
    var f := Filtered(d, tk.split(d));
    var r := CleanedMesh(m, tk);
    if |f.faces| > 0 {
      ProperFacesSpec(f.vertices, f.faces, Face(0, 0, 0));
      forall k | 0 <= k < |r.faces|
        ensures LargeEnough(r.vertices, r.faces[k])
      {
        ProperFacesSpec(f.vertices, f.faces, r.faces[k]);
      }
    }
  }

  // ----- the repair loop -----

  /** Watertight with consistent winding. */
  predicate Settled(ins: Inspector, m: MeshData)
  {
    ins.watertight(m) && ins.windingConsistent(m)
  }

  /** One standard pass: merge duplicates, fill holes, fix normals, process. */
  function Pass(tk: Toolkit, m: MeshData): MeshData
  {
    tk.process(tk.fixNormals(tk.fillHoles(tk.dedupe(m))))
  }

  /** The mesh after `k` passes. */
  function Iterate(tk: Toolkit, m: MeshData, k: nat): MeshData
    decreases k
  {
    if k == 0 then m else Iterate(tk, Pass(tk, m), k - 1)
  }

  lemma {:induction false} IterateLast(tk: Toolkit, m: MeshData, k: nat)
    ensures Iterate(tk, m, k + 1) == Pass(tk, Iterate(tk, m, k))
    decreases k
  {
    if k > 0 {
      IterateLast(tk, Pass(tk, m), k - 1);
    }
  }

  /** The number of passes the loop makes with `budget` passes allowed. */
  function PassCount(ins: Inspector, tk: Toolkit, m: MeshData, budget: nat): nat
    decreases budget
  {
    if Settled(ins, m) || budget == 0 then 0
    else if ins.watertight(Pass(tk, m)) then 1
    else 1 + PassCount(ins, tk, Pass(tk, m), budget - 1)
  }

  /** A negative iteration limit allows no pass. */
  function Budget(maxIterations: int): nat
  {
    if maxIterations > 0 then maxIterations else 0
  }

  /** The repair loop: passes while the mesh is not both watertight and consistently
      wound and the limit is not reached, stopping early after a pass that leaves it
      watertight. */
  method RepairLoop(m: MeshData, ins: Inspector, tk: Toolkit, maxIterations: int) returns (r: MeshData, iteration: int)
    ensures iteration == PassCount(ins, tk, m, Budget(maxIterations)) && r == Iterate(tk, m, iteration)
  {
    ghost var budget := Budget(maxIterations);
    iteration := 0;
    r := m;
    while (!ins.watertight(r) || !ins.windingConsistent(r)) && iteration < maxIterations
      invariant 0 <= iteration <= budget
      invariant r == Iterate(tk, m, iteration)
      invariant PassCount(ins, tk, m, budget) == iteration + PassCount(ins, tk, r, budget - iteration)
    {
      ghost var before := r;
      IterateLast(tk, m, iteration);
      iteration := iteration + 1;
      r := tk.dedupe(r);
      r := tk.fillHoles(r);
      r := tk.fixNormals(r);
      r := tk.process(r);
      if ins.watertight(r) {
        assert PassCount(ins, tk, before, budget - iteration + 1) == 1;
        break;
      }
    }
  }

  /** The loop is bounded and stops as promised: it makes at most `budget` passes, none
      when the mesh is already settled (or no pass is allowed), and it ends with a
      settled mesh, a mesh the last pass left watertight, or the limit reached; no
      earlier pass left the mesh watertight. */
  lemma {:induction false} PassCountSpec(ins: Inspector, tk: Toolkit, m: MeshData, budget: nat, j: nat)
    ensures var k := PassCount(ins, tk, m, budget);
      var r := Iterate(tk, m, k);
      k <= budget && (k == 0 <==> Settled(ins, m) || budget == 0) &&
      (Settled(ins, r) || (k > 0 && ins.watertight(r)) || k == budget) &&
      (1 <= j < k ==> !ins.watertight(Iterate(tk, m, j)) && !Settled(ins, Iterate(tk, m, j)))
    decreases budget
  {
    if !Settled(ins, m) && budget > 0 && !ins.watertight(Pass(tk, m)) {
      var m' := Pass(tk, m);
      if j >= 1 {
        PassCountSpec(ins, tk, m', budget - 1, j - 1);
      } else {
        PassCountSpec(ins, tk, m', budget - 1, 0);
      }
    }
  }

  // ----- the aggressive ladder -----

  /** Which stage of the ladder produced the mesh. */
  datatype Stage = HolesFilled | Simplified | Hull | Voxels | BestEffort

  /** A hull or voxel result the ladder accepts: present and with faces. */
  predicate Usable(o: Option<MeshData>)
  {
    o.Some? && |o.value.faces| > 0
  }

  /** The mesh after hole filling. */
  function HolesFilledMesh(tk: Toolkit, m: MeshData): MeshData
  {
    tk.fillHoles(tk.dedupe(m))
  }

  /** The simplified mesh: unreferenced vertices removed, the largest component taken
      when there are several (the earliest, on a tie), normals fixed. */
  function SimplifiedMesh(tk: Toolkit, m: MeshData): MeshData
  {
    var u := tk.removeUnreferenced(HolesFilledMesh(tk, m));
    var cs := tk.split(u);
    tk.fixNormals(if |cs| > 1 then Pick(cs, Ranking(cs)[0].index) else u)
  }

  /** The ladder, given the clock's elapsed time at the hull and at the voxel stage:
      the first stage that succeeds gives the mesh, and the hull and voxel stages run
      only before the timeout. */
  function MakeWatertight(m: MeshData, ins: Inspector, tk: Toolkit, timeout: real, hullTime: real, voxelTime: real): (r: (MeshData, Stage))
    ensures var filled, simple := HolesFilledMesh(tk, m), SimplifiedMesh(tk, m);
      (r.1 == HolesFilled <==> ins.watertight(filled)) &&
      (r.1 == Simplified <==> !ins.watertight(filled) && ins.watertight(simple)) &&
      (r.1 == Hull <==>
        (!ins.watertight(filled) && !ins.watertight(simple) && hullTime < timeout && Usable(tk.convexHull(simple)))) &&
      (r.1 == Voxels <==>
        (!ins.watertight(filled) && !ins.watertight(simple) &&
         !(hullTime < timeout && Usable(tk.convexHull(simple))) && voxelTime < timeout && Usable(tk.voxelRemesh(simple)))) &&
      (r.1 == HolesFilled ==> r.0 == filled) &&
      (r.1 in {Simplified, BestEffort} ==> r.0 == simple) &&
      (r.1 == Hull ==> r.0 == tk.convexHull(simple).value) &&
      (r.1 == Voxels ==> r.0 == tk.voxelRemesh(simple).value)
  {
    var filled := HolesFilledMesh(tk, m);
    if ins.watertight(filled) then (filled, HolesFilled)
    else
      var simple := SimplifiedMesh(tk, m);
      if ins.watertight(simple) then (simple, Simplified)
      else if hullTime < timeout && Usable(tk.convexHull(simple)) then (tk.convexHull(simple).value, Hull)
      else if voxelTime < timeout && Usable(tk.voxelRemesh(simple)) then (tk.voxelRemesh(simple).value, Voxels)
      else (simple, BestEffort)
  }

  /** What the ladder promises: its mesh is watertight when it comes from hole filling
      or simplification, has faces when it comes from the hull or voxel stage, and is
      the simplified mesh when every stage fails; once the time is up at the hull
      stage (and the clock does not run backwards) neither costly stage is used. */
  lemma LadderOutcome(m: MeshData, ins: Inspector, tk: Toolkit, timeout: real, hullTime: real, voxelTime: real)
    requires hullTime <= voxelTime
    ensures var (r, stage) := MakeWatertight(m, ins, tk, timeout, hullTime, voxelTime);
      (stage in {HolesFilled, Simplified} ==> ins.watertight(r)) &&
      (stage in {Hull, Voxels} ==> |r.faces| > 0) &&
      (hullTime >= timeout ==> stage in {HolesFilled, Simplified, BestEffort}) &&
      (stage == BestEffort ==> !ins.watertight(r) && r == SimplifiedMesh(tk, m))
  {
  }

  /** With several components the simplified mesh is built from a largest one. */
  lemma SimplifiedLargest(tk: Toolkit, m: MeshData, i: int)
    requires var cs := tk.split(tk.removeUnreferenced(HolesFilledMesh(tk, m))); |cs| > 1 && 0 <= i < |cs|
    ensures var cs := tk.split(tk.removeUnreferenced(HolesFilledMesh(tk, m)));
      var top := Ranking(cs)[0].index;
      0 <= top < |cs| && SimplifiedMesh(tk, m) == tk.fixNormals(cs[top]) && |cs[i].faces| <= |cs[top].faces|
  {
    var cs := tk.split(tk.removeUnreferenced(HolesFilledMesh(tk, m)));
    LargestFirst(cs, i);
  }

  // ----- the whole repair -----

  /** The repaired mesh: cleaned when asked, passed through the repair loop, then
      through the ladder when aggressive repair is asked and the mesh still leaks. */
  function Repaired(m: MeshData, ins: Inspector, tk: Toolkit, aggressive: bool, clean: bool, maxIterations: int,
                    timeout: real, hullTime: real, voxelTime: real): MeshData
  {
    var c := if clean then CleanedMesh(m, tk) else m;
    var looped := Iterate(tk, c, PassCount(ins, tk, c, Budget(maxIterations)));
    if aggressive && !ins.watertight(looped) then MakeWatertight(looped, ins, tk, timeout, hullTime, voxelTime).0
    else looped
  }

  /** The ladder runs only when asked and needed: without aggressive repair, or when the
      loop already left the mesh watertight, the loop's mesh is the result. */
  lemma AggressiveOnlyWhenLeaking(m: MeshData, ins: Inspector, tk: Toolkit, aggressive: bool, clean: bool,
                                  maxIterations: int, timeout: real, hullTime: real, voxelTime: real)
    ensures var c := if clean then CleanedMesh(m, tk) else m;
      var looped := Iterate(tk, c, PassCount(ins, tk, c, Budget(maxIterations)));
      var r := Repaired(m, ins, tk, aggressive, clean, maxIterations, timeout, hullTime, voxelTime);
      (!aggressive || ins.watertight(looped) ==> r == looped) &&
      (aggressive && !ins.watertight(looped) ==> r == MakeWatertight(looped, ins, tk, timeout, hullTime, voxelTime).0)
  {
  }

  /** The repair shared by both front ends, on a loaded mesh. */
  method RepairMesh(m: MeshData, ins: Inspector, tk: Toolkit, aggressive: bool, clean: bool, maxIterations: int,
                    timeout: real, hullTime: real, voxelTime: real) returns (r: MeshData)
    ensures r == Repaired(m, ins, tk, aggressive, clean, maxIterations, timeout, hullTime, voxelTime)
  {
    var mesh := m;
    if clean {
      mesh := CleanModel(mesh, tk);
    }
    var iteration;
    r, iteration := RepairLoop(mesh, ins, tk, maxIterations);
    if aggressive && !ins.watertight(r) {
      var ladder := MakeWatertight(r, ins, tk, timeout, hullTime, voxelTime);
      r := ladder.0;
    }
  }

  /** The desktop repair: the output path when the mesh loads (the repaired mesh is
      written there); a load failure is raised again, modelled as `None`. The file
      writing and the clock are left out; the timestamp and elapsed times are
      parameters. */
  method FixStl(inputFile: string, outputPath: Option<string>, load: Option<MeshData>, ins: Inspector, tk: Toolkit,
                aggressive: bool, cleanModel: bool, maxIterations: int, timeout: real, hullTime: real, voxelTime: real,
                useTimestamp: bool, timestamp: string)
    returns (path: Option<string>, written: MeshData)
    ensures path.Some? <==> load.Some?
    ensures load.Some? ==>
      path.value == RepairOutputPath(inputFile, outputPath, useTimestamp, timestamp) &&
      written == Repaired(load.value, ins, tk, aggressive, cleanModel, maxIterations, timeout, hullTime, voxelTime)
  {
    var target := RepairOutputPath(inputFile, outputPath, useTimestamp, timestamp);
    if load.None? {
      return None, MeshData([], []);
    }
    written := RepairMesh(load.value, ins, tk, aggressive, cleanModel, maxIterations, timeout, hullTime, voxelTime);
    path := Some(target);
  }

  /** The stand-alone repair: true after writing the repaired mesh to the given file,
      false when the mesh does not load. */
  method FixStlScript(load: Option<MeshData>, ins: Inspector, tk: Toolkit, aggressive: bool, clean: bool,
                      maxIterations: int, timeout: real, hullTime: real, voxelTime: real)
    returns (ok: bool, written: MeshData)
    ensures ok <==> load.Some?
    ensures ok ==> written == Repaired(load.value, ins, tk, aggressive, clean, maxIterations, timeout, hullTime, voxelTime)
  {
    if load.None? {
      return false, MeshData([], []);
    }
    written := RepairMesh(load.value, ins, tk, aggressive, clean, maxIterations, timeout, hullTime, voxelTime);
    ok := true;
  }

  // ----- validation -----

  /** The statistics reported with the verdict (volume and Euler number left out). */
  datatype Stats = Stats(vertices: nat, faces: nat, watertight: bool, windingConsistent: bool, empty: bool)

  /** The validity check: a mesh that loads is valid when it is watertight,
      consistently wound and not empty; one that does not load is invalid with no
      statistics. */
  function ValidateStl(load: Option<MeshData>, ins: Inspector): (r: (bool, Option<Stats>))
    ensures r.0 <==> load.Some? && ins.watertight(load.value) && ins.windingConsistent(load.value) && !ins.isEmpty(load.value)
    ensures r.1.Some? <==> load.Some?
    ensures r.0 <==> r.1.Some? && r.1.value.watertight && r.1.value.windingConsistent && !r.1.value.empty
    ensures r.1.Some? ==> r.1.value.vertices == |load.value.vertices| && r.1.value.faces == |load.value.faces|
  {
    match load
    case None => (false, None)
    case Some(m) =>
      var stats := Stats(|m.vertices|, |m.faces|, ins.watertight(m), ins.windingConsistent(m), ins.isEmpty(m));
      (stats.watertight && stats.windingConsistent && !stats.empty, Some(stats))
  }
}
