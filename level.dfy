/**
 * The level image parser of src/level.rs: a black pixel is a wall tile, a red
 * pixel is the player, every other pixel is nothing, and a level must hold
 * exactly one player.
 */
module Levels {
  import opened Wrappers

  /** An unsigned byte. */
  newtype u8 = x: int | 0 <= x < 256

  /** One RGBA pixel. */
  datatype Rgba = Rgba(r: u8, g: u8, b: u8, a: u8)

  const BLACK: Rgba := Rgba(0, 0, 0, 255)
  const RED: Rgba := Rgba(255, 0, 0, 255)

  const U32_LIMIT: int := 0x1_0000_0000
  const I32_LIMIT: int := 0x8000_0000

  /** An RGBA image: rows of `width` pixels, top row first; both dimensions are `u32`s. */
  datatype RgbaImage = RgbaImage(width: nat, rows: seq<seq<Rgba>>)

  function Height(img: RgbaImage): nat { |img.rows| }

  /** The image's shape: every row is `width` long and both dimensions fit a `u32`. */
  ghost predicate Valid(img: RgbaImage) {
    && img.width < U32_LIMIT && |img.rows| < U32_LIMIT
    && forall y :: 0 <= y < |img.rows| ==> |img.rows[y]| == img.width
  }

  /** A pixel with its column `x` and row `y`, as the image's pixel enumeration yields it. */
  datatype Pixel = Pixel(x: nat, y: nat, color: Rgba)

  /** Row `y`'s pixels, left to right. */
  function RowPixels(y: nat, row: seq<Rgba>): seq<Pixel> {
    seq(|row|, x requires 0 <= x < |row| => Pixel(x, y, row[x]))
  }

  /**
   * `enumerate_pixels`: every pixel of the image with its coordinates, row by
   * row, each row left to right. Each enumerated pixel lies inside the image
   * and carries the colour stored there.
   */
  function EnumeratePixels(rows: seq<seq<Rgba>>): (ps: seq<Pixel>)
    ensures forall i :: 0 <= i < |ps| ==>
      ps[i].y < |rows| && ps[i].x < |rows[ps[i].y]| && ps[i].color == rows[ps[i].y][ps[i].x]
    decreases |rows|
  {
    if rows == [] then [] else EnumeratePixels(rows[..|rows| - 1]) + RowPixels(|rows| - 1, rows[|rows| - 1])
  }

  /** An integer 2-D vector, the key type of a level. */
  datatype IVec2 = IVec2(x: int, y: int)

  /** Rust's `v as i32` for a `u32` `v`: the two's-complement reading of its bits. */
  function AsI32(v: nat): (r: int)
    ensures v < U32_LIMIT ==> -I32_LIMIT <= r < I32_LIMIT
    ensures (v - r) % U32_LIMIT == 0
    ensures v < I32_LIMIT ==> r == v
  {
    if v < I32_LIMIT then v else v - U32_LIMIT
  }

  /** The key of a pixel: `IVec2::new(x as i32, y as i32)`. */
  function Key(p: Pixel): IVec2 {
    IVec2(AsI32(p.x), AsI32(p.y))
  }

  datatype LevelContents = Player | Tile | Portal

  /** A level: what stands at each tile position. */
  datatype Level = Level(contents: map<IVec2, LevelContents>)

  datatype LevelParseError = WrongNumberPlayers(count: int)

  /** What a pixel colour stands for, if anything: black is a tile, red the player; a colour never stands for a portal. */
  function Classify(color: Rgba): (c: Option<LevelContents>)
    ensures c == Some(Tile) <==> color == BLACK
    ensures c == Some(Player) <==> color == RED
    ensures c.None? <==> color != BLACK && color != RED
    ensures c != Some(Portal)
  {
    if color == BLACK then Some(Tile)
    else if color == RED then Some(Player)
    else None
  }

  /** Collecting the classified pixels into a map, in order (a later entry for the same key would win). */
  function Collect(ps: seq<Pixel>): map<IVec2, LevelContents>
    decreases |ps|
  {
    if ps == [] then map[]
    else
      var m := Collect(ps[..|ps| - 1]);
      var p := ps[|ps| - 1];
      match Classify(p.color)
      case Some(c) => m[Key(p) := c]
      case None => m
  }

  /** The number of red pixels among `ps`. */
  function CountRed(ps: seq<Pixel>): nat
    decreases |ps|
  {
    if ps == [] then 0
    else CountRed(ps[..|ps| - 1]) + (if ps[|ps| - 1].color == RED then 1 else 0)
  }

  /** The level an image describes. */
  function LevelOf(img: RgbaImage): map<IVec2, LevelContents> {
    Collect(EnumeratePixels(img.rows))
  }

  /** The number of players an image holds: its red pixels. */
  function PlayerCount(img: RgbaImage): nat {
    CountRed(EnumeratePixels(img.rows))
  }

  /**
   * `parse_level_image`: one pass over the pixels that builds the map and
   * counts the players; it fails with that count unless it is exactly one.
   */
  method ParseLevelImage(img: RgbaImage) returns (r: Result<Level, LevelParseError>)
    ensures r.Err? <==> PlayerCount(img) != 1
    ensures r.Err? ==> r.error == WrongNumberPlayers(PlayerCount(img))
    ensures r.Ok? ==> r.value.contents == LevelOf(img)
  {
    var pixels := EnumeratePixels(img.rows);
    var playerCount := 0;
    var contents: map<IVec2, LevelContents> := map[];
    var i := 0;
    while i < |pixels|
      invariant 0 <= i <= |pixels|
      invariant contents == Collect(pixels[..i])
      invariant playerCount == CountRed(pixels[..i])
    {
      var pixel := pixels[i];
      if pixel.color == BLACK {
        contents := contents[IVec2(AsI32(pixel.x), AsI32(pixel.y)) := Tile];
      } else if pixel.color == RED {
        playerCount := playerCount + 1;
        contents := contents[IVec2(AsI32(pixel.x), AsI32(pixel.y)) := Player];
      }
      assert pixels[..i + 1][..i] == pixels[..i];
      i := i + 1;
    }
    assert pixels[..i] == pixels;
    if playerCount != 1 {
      r := Err(WrongNumberPlayers(playerCount));
    } else {
      r := Ok(Level(contents));
    }
  }
}
