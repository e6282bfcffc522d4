/**
 * The two placement passes over the list of care areas: main fields (tiles of
 * the main-field size) and subfields (tiles of the subfield size, each tagged
 * with the index of the care area it was cut from). Both run the same covering
 * of Covering, care area by care area in input order.
 */
module Placer {
  import opened Covering

  /** One subfield record: the tile's bounds and the index of its care area. */
  datatype Subfield = Subfield(bounds: Box, parent: int)

  /** Total tile count of a list of care areas with step `size`: the sum over the
      areas, in input order, of Steps(width) * Steps(height): the product of the
      ceilings of width / size and height / size for an area with positive
      extents, zero for an empty or inverted one. */
  function TileCount(careAreas: seq<Box>, size: int): nat
    requires size > 0
  {
    if careAreas == [] then 0
    else TileCount(careAreas[..|careAreas| - 1], size) + XSteps(careAreas[|careAreas| - 1], size) * YSteps(careAreas[|careAreas| - 1], size)
  }

  /** Main fields of all care areas: each area's cover, in input order. */
  function MainFields(careAreas: seq<Box>, size: int): seq<Box>
    requires size > 0
  {
    if careAreas == [] then []
    else MainFields(careAreas[..|careAreas| - 1], size) + Cover(careAreas[|careAreas| - 1], size)
  }

  /** The tiles of one care area, each tagged with that area's index. */
  function Tagged(tiles: seq<Box>, parent: int): seq<Subfield>
  {
    seq(|tiles|, m requires 0 <= m < |tiles| => Subfield(tiles[m], parent))
  }

  lemma TaggedAppend(a: seq<Box>, b: seq<Box>, parent: int)
    ensures Tagged(a + b, parent) == Tagged(a, parent) + Tagged(b, parent)
  {
  }

  /** Subfields of all care areas, in input order, tagged with their area's index. */
  function Subfields(careAreas: seq<Box>, size: int): seq<Subfield>
    requires size > 0
  {
    if careAreas == [] then []
    else Subfields(careAreas[..|careAreas| - 1], size) + Tagged(Cover(careAreas[|careAreas| - 1], size), |careAreas| - 1)
  }

  /** The main-field pass: for every care area, for every column i, for every
      row j, append the clipped tile. */
  method PlaceMainFields(careAreas: seq<Box>, mainFieldSize: int) returns (mainFields: seq<Box>)
    requires mainFieldSize > 0
    ensures mainFields == MainFields(careAreas, mainFieldSize)
  {
    mainFields := [];
    for index := 0 to |careAreas|
      invariant mainFields == MainFields(careAreas[..index], mainFieldSize)
    {
      var area := careAreas[index];
      var xSteps := Steps(area.x2 - area.x1, mainFieldSize);
      var ySteps := Steps(area.y2 - area.y1, mainFieldSize);
      ghost var before := mainFields;
      ghost var tiles := Cover(area, mainFieldSize);
      ghost var k := 0;
      for i := 0 to xSteps
        invariant k == i * ySteps && k <= |tiles|
        invariant mainFields == before + tiles[..k]
      {
        for j := 0 to ySteps
          invariant k == i * ySteps + j && k <= |tiles|
          invariant mainFields == before + tiles[..k]
        {
          var x1 := area.x1 + i * mainFieldSize;
          var x2 := Min(x1 + mainFieldSize, area.x2);
          var y1 := area.y1 + j * mainFieldSize;
          var y2 := Min(y1 + mainFieldSize, area.y2);
          CoverPrefixStep(area, mainFieldSize, i, j);
          mainFields := mainFields + [Box(x1, x2, y1, y2)];
          k := k + 1;
        }
        assert k == (i + 1) * ySteps;
      }
      assert tiles[..k] == tiles;
      MainFieldsStep(careAreas, index, mainFieldSize);
    }
    assert careAreas[..|careAreas|] == careAreas;
  }

  /** The subfield pass: the same loops with the subfield size, each record
      carrying the index of the care area being tiled. */
  method PlaceSubfields(careAreas: seq<Box>, subFieldSize: int) returns (subfields: seq<Subfield>)
    requires subFieldSize > 0
    ensures subfields == Subfields(careAreas, subFieldSize)
  {
    subfields := [];
    for index := 0 to |careAreas|
      invariant subfields == Subfields(careAreas[..index], subFieldSize)
    {
      var area := careAreas[index];
      var nx := Steps(area.x2 - area.x1, subFieldSize);
      var ny := Steps(area.y2 - area.y1, subFieldSize);
      ghost var before := subfields;
      ghost var tiles := Cover(area, subFieldSize);
      ghost var k := 0;
      for i := 0 to nx
        invariant k == i * ny && k <= |tiles|
        invariant subfields == before + Tagged(tiles[..k], index)
      {
        for j := 0 to ny
          invariant k == i * ny + j && k <= |tiles|
          invariant subfields == before + Tagged(tiles[..k], index)
        {
          var x1 := area.x1 + i * subFieldSize;
          var x2 := Min(x1 + subFieldSize, area.x2);
          var y1 := area.y1 + j * subFieldSize;
          var y2 := Min(y1 + subFieldSize, area.y2);
          CoverPrefixStep(area, subFieldSize, i, j);
          TaggedAppend(tiles[..k], [Box(x1, x2, y1, y2)], index);
          subfields := subfields + [Subfield(Box(x1, x2, y1, y2), index)];
          k := k + 1;
        }
        assert k == (i + 1) * ny;
      }
      assert tiles[..k] == tiles;
      SubfieldsStep(careAreas, index, subFieldSize);
    }
    assert careAreas[..|careAreas|] == careAreas;
  }

  /** One more care area adds its cover to the main fields. */
  lemma MainFieldsStep(careAreas: seq<Box>, index: int, size: int)
    requires size > 0 && 0 <= index < |careAreas|
    ensures MainFields(careAreas[..index + 1], size) == MainFields(careAreas[..index], size) + Cover(careAreas[index], size)
  {
    assert careAreas[..index + 1][..index] == careAreas[..index];
  }

  /** One more care area adds its tagged cover to the subfields. */
  lemma SubfieldsStep(careAreas: seq<Box>, index: int, size: int)
    requires size > 0 && 0 <= index < |careAreas|
    ensures Subfields(careAreas[..index + 1], size) == Subfields(careAreas[..index], size) + Tagged(Cover(careAreas[index], size), index)
  {
    assert careAreas[..index + 1][..index] == careAreas[..index];
  }

  // ---------------------------------------------------------------------------
  // Properties of the passes

  lemma {:induction false} MainFieldsAppend(a: seq<Box>, b: seq<Box>, size: int)
    requires size > 0
    ensures MainFields(a + b, size) == MainFields(a, size) + MainFields(b, size)
    decreases |b|
  {
    if b == [] {
      assert a + b == a;
    } else {
      var b', last := b[..|b| - 1], b[|b| - 1];
      assert (a + b)[..|a + b| - 1] == a + b' && (a + b)[|a + b| - 1] == last;
      calc {
        MainFields(a + b, size);
        MainFields(a + b', size) + Cover(last, size);
        { MainFieldsAppend(a, b', size); }
        MainFields(a, size) + MainFields(b', size) + Cover(last, size);
        MainFields(a, size) + MainFields(b, size);
      }
    }
  }

  /** Tile count of the main-field pass: the sum over the care areas of
      ceil(width / size) * ceil(height / size), an area with a non-positive
      extent contributing nothing. */
  lemma {:induction false} MainFieldsCount(careAreas: seq<Box>, size: int)
    requires size > 0
    ensures |MainFields(careAreas, size)| == TileCount(careAreas, size)
  {
    if careAreas != [] {
      MainFieldsCount(careAreas[..|careAreas| - 1], size);
      CoverCount(careAreas[|careAreas| - 1], size);
    }
  }

  /** Ordering: the tiles of care area k form one contiguous block, in the covering's
      own order, right after the tiles of all earlier areas. */
  lemma MainFieldsOrder(careAreas: seq<Box>, size: int, k: int)
    requires size > 0 && 0 <= k < |careAreas|
    ensures |MainFields(careAreas[..k], size)| + |Cover(careAreas[k], size)| <= |MainFields(careAreas, size)|
    ensures MainFields(careAreas, size)[|MainFields(careAreas[..k], size)|
                                        .. |MainFields(careAreas[..k], size)| + |Cover(careAreas[k], size)|]
            == Cover(careAreas[k], size)
  {
    var front := careAreas[..k + 1];
    assert careAreas == front + careAreas[k + 1..];
    MainFieldsAppend(front, careAreas[k + 1..], size);
    assert front[..k] == careAreas[..k];
  }

  /** Appending care areas keeps the subfields already placed: the subfields of
      `a` are a prefix of those of `a + b`, indices unchanged. */
  lemma {:induction false} SubfieldsAppend(a: seq<Box>, b: seq<Box>, size: int)
    requires size > 0
    ensures |Subfields(a, size)| <= |Subfields(a + b, size)|
    ensures Subfields(a + b, size)[..|Subfields(a, size)|] == Subfields(a, size)
    decreases |b|
  {
    if b == [] {
      assert a + b == a;
    } else {
      var b', last := b[..|b| - 1], b[|b| - 1];
      assert (a + b)[..|a + b| - 1] == a + b' && (a + b)[|a + b| - 1] == last;
      SubfieldsAppend(a, b', size);
      var front := Subfields(a + b', size);
      assert Subfields(a + b, size) == front + Tagged(Cover(last, size), |a + b| - 1);
      assert Subfields(a + b, size)[..|Subfields(a, size)|] == front[..|Subfields(a, size)|];
    }
  }

  /** Parent linkage: the records cut from care area k form one contiguous block,
      right after the records of areas 0..k-1; its t-th record is the t-th tile
      of area k's cover, tagged with k. */
  lemma SubfieldsOrder(careAreas: seq<Box>, size: int, k: int, t: int)
    requires size > 0 && 0 <= k < |careAreas| && 0 <= t < |Cover(careAreas[k], size)|
    ensures |Subfields(careAreas[..k], size)| + t < |Subfields(careAreas, size)|
    ensures Subfields(careAreas, size)[|Subfields(careAreas[..k], size)| + t]
            == Subfield(Cover(careAreas[k], size)[t], k)
  {
    var front := careAreas[..k + 1];
    var all, head := Subfields(careAreas, size), Subfields(front, size);
    var p, tagged := |Subfields(careAreas[..k], size)|, Tagged(Cover(careAreas[k], size), k);
    SubfieldsStep(careAreas, k, size);
    assert head == Subfields(careAreas[..k], size) + tagged;
    assert head[p + t] == tagged[t];
    assert careAreas == front + careAreas[k + 1..];
    SubfieldsAppend(front, careAreas[k + 1..], size);
    assert all[..|head|] == head;
    assert all[p + t] == all[..|head|][p + t];
  }

  /** Shared algorithm: the subfield bounds are exactly the main-field pass run
      with the subfield size; the two differ only in the appended index. */
  lemma {:induction false} SubfieldsShareCover(careAreas: seq<Box>, size: int)
    requires size > 0
    ensures |Subfields(careAreas, size)| == |MainFields(careAreas, size)|
    ensures forall m :: 0 <= m < |Subfields(careAreas, size)| ==>
      Subfields(careAreas, size)[m].bounds == MainFields(careAreas, size)[m]
  {
    if careAreas != [] {
      SubfieldsShareCover(careAreas[..|careAreas| - 1], size);
    }
  }

  /** Parent linkage: every subfield names a care area of the input, is one of
      that area's tiles, and lies inside it. */
  lemma {:induction false} SubfieldParent(careAreas: seq<Box>, size: int, m: int)
    requires size > 0 && 0 <= m < |Subfields(careAreas, size)|
    ensures 0 <= Subfields(careAreas, size)[m].parent < |careAreas|
    ensures Subfields(careAreas, size)[m].bounds in Cover(careAreas[Subfields(careAreas, size)[m].parent], size)
    ensures Within(Subfields(careAreas, size)[m].bounds, careAreas[Subfields(careAreas, size)[m].parent])
  {
    var n := |careAreas|;
    var front := careAreas[..n - 1];
    var sf := Subfields(careAreas, size);
    if m < |Subfields(front, size)| {
      SubfieldParent(front, size, m);
      assert sf[m] == Subfields(front, size)[m];
      assert front[sf[m].parent] == careAreas[sf[m].parent];
    } else {
      var tiles := Cover(careAreas[n - 1], size);
      assert sf[m] == Subfield(tiles[m - |Subfields(front, size)|], n - 1);
      CoverWithin(careAreas[n - 1], size);
    }
  }

  /** Ordering of subfields: parent indices never decrease along the output. */
  lemma {:induction false} SubfieldParentsOrdered(careAreas: seq<Box>, size: int, m1: int, m2: int)
    requires size > 0 && 0 <= m1 <= m2 < |Subfields(careAreas, size)|
    ensures Subfields(careAreas, size)[m1].parent <= Subfields(careAreas, size)[m2].parent
  {
    var n := |careAreas|;
    var front := careAreas[..n - 1];
    var sf := Subfields(careAreas, size);
    var p := |Subfields(front, size)|;
    if m2 < p {
      SubfieldParentsOrdered(front, size, m1, m2);
      assert sf[m1] == Subfields(front, size)[m1] && sf[m2] == Subfields(front, size)[m2];
    } else if m1 < p {
      SubfieldParent(front, size, m1);
      assert sf[m1] == Subfields(front, size)[m1];
    }
  }

  /** Every main field lies inside one of the care areas. */
  lemma MainFieldWithin(careAreas: seq<Box>, size: int, m: int)
    requires size > 0 && 0 <= m < |MainFields(careAreas, size)|
    ensures exists k :: 0 <= k < |careAreas| && Within(MainFields(careAreas, size)[m], careAreas[k])
  {
    SubfieldsShareCover(careAreas, size);
    SubfieldParent(careAreas, size, m);
  }

  lemma SubfieldsOfTwo(a: Box, b: Box, size: int)
    requires size > 0
    ensures Subfields([a, b], size) == Tagged(Cover(a, size), 0) + Tagged(Cover(b, size), 1)
  {
    assert [a, b][..1] == [a] && [a][..0] == [];
    assert Subfields([a], size) == [] + Tagged(Cover(a, size), 0);
  }

  /** Two care areas (0, 100, 0, 100) and (50, 60, 50, 60) with subfield size 40:
      nine subfields of area 0, the last clipped to (80, 100, 80, 100), then the
      single subfield of area 1, which is the whole area. */
  lemma TwoAreaExample()
    ensures |Subfields([Box(0, 100, 0, 100), Box(50, 60, 50, 60)], 40)| == 10
    ensures Subfields([Box(0, 100, 0, 100), Box(50, 60, 50, 60)], 40)[8] == Subfield(Box(80, 100, 80, 100), 0)
    ensures Subfields([Box(0, 100, 0, 100), Box(50, 60, 50, 60)], 40)[9] == Subfield(Box(50, 60, 50, 60), 1)
  {
    var a, b := Box(0, 100, 0, 100), Box(50, 60, 50, 60);
    assert Steps(100, 40) == 3 && Steps(10, 40) == 1;
    SubfieldsOfTwo(a, b, 40);
  }
}
