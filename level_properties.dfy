/**
 * Properties of the level image parser: each black or red pixel gives exactly
 * one entry at its own coordinates, nothing else gives one, every key is a
 * pixel of the image, no entry is a portal, and the player count is the number
 * of player entries, so a parsed level holds exactly one player.
 */
module LevelProperties {
  import opened Wrappers
  import opened Levels

  /** `p` comes strictly before `q` in row-major order. */
  predicate Before(p: Pixel, q: Pixel) {
    p.y < q.y || (p.y == q.y && p.x < q.x)
  }

  /** The enumeration yields the pixels in strictly increasing row-major order. */
  lemma {:induction false} EnumerateShape(rows: seq<seq<Rgba>>)
    ensures forall i, j :: 0 <= i < j < |EnumeratePixels(rows)| ==> Before(EnumeratePixels(rows)[i], EnumeratePixels(rows)[j])
  {
    if rows != [] {
      var n := |rows|;
      var prefix := rows[..n - 1];
      EnumerateShape(prefix);
      var front := EnumeratePixels(prefix);
      var row := RowPixels(n - 1, rows[n - 1]);
      var ps := EnumeratePixels(rows);
      assert ps == front + row;
      forall i, j | 0 <= i < j < |ps|
        ensures Before(ps[i], ps[j])
      {
        if j < |front| {
          assert ps[i] == front[i] && ps[j] == front[j];
        } else if i < |front| {
          assert ps[i] == front[i] && ps[j] == row[j - |front|];
        } else {
          assert ps[i] == row[i - |front|] && ps[j] == row[j - |front|];
        }
      }
    }
  }

  /** Every pixel of the image is enumerated. */
  lemma {:induction false} EnumerateCovers(rows: seq<seq<Rgba>>, x: nat, y: nat)
    requires y < |rows| && x < |rows[y]|
    ensures Pixel(x, y, rows[y][x]) in EnumeratePixels(rows)
  {
    var n := |rows|;
    var prefix := rows[..n - 1];
    if y == n - 1 {
      assert RowPixels(n - 1, rows[n - 1])[x] == Pixel(x, y, rows[y][x]);
    } else {
      EnumerateCovers(prefix, x, y);
      assert prefix[y] == rows[y];
    }
  }

  /** No two pixels share a key. */
  ghost predicate DistinctKeys(ps: seq<Pixel>) {
    forall i, j :: 0 <= i < j < |ps| ==> Key(ps[i]) != Key(ps[j])
  }

  /** The image's pixels have pairwise distinct keys: coordinates are distinct, and `as i32` is injective on `u32`s. */
  lemma EnumerateDistinctKeys(img: RgbaImage)
    requires Valid(img)
    ensures DistinctKeys(EnumeratePixels(img.rows))
  {
    var ps := EnumeratePixels(img.rows);
    EnumerateShape(img.rows);
    forall i, j | 0 <= i < j < |ps|
      ensures Key(ps[i]) != Key(ps[j])
    {
      assert Before(ps[i], ps[j]);
      assert ps[i].x < U32_LIMIT && ps[j].x < U32_LIMIT;
    }
  }

  /** Every key of the collected map comes from some pixel, which classifies as the key's entry. */
  lemma {:induction false} CollectKeys(ps: seq<Pixel>)
    ensures forall k :: k in Collect(ps) ==>
      exists i :: 0 <= i < |ps| && Key(ps[i]) == k && Classify(ps[i].color) == Some(Collect(ps)[k])
  {
    if ps != [] {
      var n := |ps|;
      var prefix := ps[..n - 1];
      CollectKeys(prefix);
      forall k | k in Collect(ps)
        ensures exists i :: 0 <= i < |ps| && Key(ps[i]) == k && Classify(ps[i].color) == Some(Collect(ps)[k])
      {
        if Classify(ps[n - 1].color).Some? && k == Key(ps[n - 1]) {
          assert Key(ps[n - 1]) == k && Classify(ps[n - 1].color) == Some(Collect(ps)[k]);
        } else {
          assert k in Collect(prefix) && Collect(ps)[k] == Collect(prefix)[k];
          var i :| 0 <= i < |prefix| && Key(prefix[i]) == k && Classify(prefix[i].color) == Some(Collect(prefix)[k]);
          assert ps[i] == prefix[i];
        }
      }
    }
  }

  /** With distinct keys, the last pixel's key is not among those collected from the pixels before it. */
  lemma NotYetCollected(ps: seq<Pixel>)
    requires DistinctKeys(ps) && ps != []
    ensures Key(ps[|ps| - 1]) !in Collect(ps[..|ps| - 1])
  {
    var prefix := ps[..|ps| - 1];
    forall j | 0 <= j < |prefix|
      ensures Key(prefix[j]) != Key(ps[|ps| - 1])
    {
      assert prefix[j] == ps[j];
    }
    CollectKeys(prefix);
  }

  /** With distinct keys, pixel `i` gives an entry at its key exactly when it is black or red, and that entry is its class. */
  lemma {:induction false} CollectHas(ps: seq<Pixel>, i: nat)
    requires DistinctKeys(ps) && i < |ps|
    ensures Classify(ps[i].color).Some? ==>
      Key(ps[i]) in Collect(ps) && Collect(ps)[Key(ps[i])] == Classify(ps[i].color).value
    ensures Classify(ps[i].color).None? ==> Key(ps[i]) !in Collect(ps)
  {
    var n := |ps|;
    var prefix := ps[..n - 1];
    assert DistinctKeys(prefix) by {
      forall a, b | 0 <= a < b < |prefix| ensures Key(prefix[a]) != Key(prefix[b]) {
        assert prefix[a] == ps[a] && prefix[b] == ps[b];
      }
    }
    if i == n - 1 {
      NotYetCollected(ps);
    } else {
      CollectHas(prefix, i);
      assert prefix[i] == ps[i];
      assert Key(ps[n - 1]) != Key(ps[i]);
    }
  }

  /** The keys of a level's player entries. */
  function PlayerKeys(m: map<IVec2, LevelContents>): set<IVec2> {
    set k | k in m && m[k] == Player
  }

  /** With distinct keys, the red pixels counted are the player entries collected. */
  lemma {:induction false} CountRedIsPlayerKeys(ps: seq<Pixel>)
    requires DistinctKeys(ps)
    ensures CountRed(ps) == |PlayerKeys(Collect(ps))|
  {
    if ps != [] {
      var n := |ps|;
      var prefix := ps[..n - 1];
      assert DistinctKeys(prefix) by {
        forall a, b | 0 <= a < b < |prefix| ensures Key(prefix[a]) != Key(prefix[b]) {
          assert prefix[a] == ps[a] && prefix[b] == ps[b];
        }
      }
      CountRedIsPlayerKeys(prefix);
      var m := Collect(prefix);
      var k := Key(ps[n - 1]);
      NotYetCollected(ps);
      if ps[n - 1].color == RED {
        assert PlayerKeys(m[k := Player]) == PlayerKeys(m) + {k};
      } else if ps[n - 1].color == BLACK {
        assert PlayerKeys(m[k := Tile]) == PlayerKeys(m);
      }
    }
  }

  /**
   * Within the image, a black pixel gives a `Tile` at its key, a red pixel a
   * `Player`, and any other pixel (a non-opaque black or red included) no entry.
   */
  lemma LevelOfAt(img: RgbaImage, x: nat, y: nat)
    requires Valid(img) && y < Height(img) && x < img.width
    ensures img.rows[y][x] == BLACK ==>
      IVec2(AsI32(x), AsI32(y)) in LevelOf(img) && LevelOf(img)[IVec2(AsI32(x), AsI32(y))] == Tile
    ensures img.rows[y][x] == RED ==>
      IVec2(AsI32(x), AsI32(y)) in LevelOf(img) && LevelOf(img)[IVec2(AsI32(x), AsI32(y))] == Player
    ensures img.rows[y][x] != BLACK && img.rows[y][x] != RED ==> IVec2(AsI32(x), AsI32(y)) !in LevelOf(img)
  {
    var ps := EnumeratePixels(img.rows);
    EnumerateCovers(img.rows, x, y);
    var i :| 0 <= i < |ps| && ps[i] == Pixel(x, y, img.rows[y][x]);
    EnumerateDistinctKeys(img);
    CollectHas(ps, i);
  }

  /**
   * For an image of at most 2^31 pixels a side, every key of its level is a
   * pixel of the image, and the entry there is what that pixel classifies as.
   */
  lemma LevelOfKeysInImage(img: RgbaImage)
    requires Valid(img) && img.width <= I32_LIMIT && Height(img) <= I32_LIMIT
    ensures forall k :: k in LevelOf(img) ==>
      && 0 <= k.y < Height(img) && 0 <= k.x < img.width
      && Classify(img.rows[k.y][k.x]) == Some(LevelOf(img)[k])
  {
    var ps := EnumeratePixels(img.rows);
    CollectKeys(ps);
    EnumerateShape(img.rows);
    forall k | k in LevelOf(img)
      ensures 0 <= k.y < Height(img) && 0 <= k.x < img.width && Classify(img.rows[k.y][k.x]) == Some(LevelOf(img)[k])
    {
      var i :| 0 <= i < |ps| && Key(ps[i]) == k && Classify(ps[i].color) == Some(LevelOf(img)[k]);
      assert ps[i].y < Height(img) && ps[i].x < |img.rows[ps[i].y]|;
    }
  }

  /** The parser never places a portal. */
  lemma NoPortal(img: RgbaImage)
    ensures forall k :: k in LevelOf(img) ==> LevelOf(img)[k] != Portal
  {
    CollectKeys(EnumeratePixels(img.rows));
  }

  /**
   * The player count is the number of player entries; so exactly when the
   * parser succeeds, its level holds exactly one player.
   */
  lemma PlayerCountIsPlayerEntries(img: RgbaImage)
    requires Valid(img)
    ensures PlayerCount(img) == |PlayerKeys(LevelOf(img))|
    ensures PlayerCount(img) == 1 <==> exists k :: PlayerKeys(LevelOf(img)) == {k}
  {
    EnumerateDistinctKeys(img);
    CountRedIsPlayerKeys(EnumeratePixels(img.rows));
    var s := PlayerKeys(LevelOf(img));
    if |s| == 1 {
      var k :| k in s;
      assert |s - {k}| == 0;
      assert s - {k} == {};
      assert s == {k};
    }
  }
}
