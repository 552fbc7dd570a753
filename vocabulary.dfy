/**
 * The vocabulary tables of nlp.js: location words to anchor positions and
 * rotations, size words to scales, and the ground offset of 3-D models.
 * Vectors are exact rationals; the JavaScript numbers are their nearest doubles.
 */
module Vocabulary {

  datatype Vec3 = Vec3(x: real, y: real, z: real)

  /** The words the position and rotation switches name, English and Spanish. */
  const LocationCases: seq<string> :=
    ["left", "izquierda", "right", "derecha", "above", "arriba", "below", "abajo",
     "behind", "atrás", "front", "frente"]

  /** The words the size switch names, English and Spanish. */
  const SizeCases: seq<string> :=
    ["tiny", "diminuto", "small", "pequeño", "large", "grande", "huge", "enorme"]

  /** Eye height of the viewer, the y of every wall anchor. */
  const EyeHeight: real := 1.6

  /** Distance from the viewer to the walls in front, behind, left and right. */
  const WallDistance: real := 8.0

  /**
   * `getAbsPos(str, width, height)`: the anchor of a `width` x `height` object
   * placed on the wall a location word names, moved by half its size so that
   * it sits centred; anything the switch does not name falls to the front wall.
   */
  function AbsPos(word: string, width: real, height: real): (r: Vec3)
    ensures (r.y == EyeHeight - height / 2.0
        && (r.x == -WallDistance || r.x == WallDistance || r.z == WallDistance || r.z == -WallDistance))
      || ((r.y == 6.0 || r.y == -3.0) && r.x == -width / 2.0 && r.z == 0.0)
  {
    var xSize := -0.5 * width;
    var ySize := -0.5 * height;
    if word == "left" || word == "izquierda" then Vec3(-WallDistance, EyeHeight + ySize, -xSize)
    else if word == "right" || word == "derecha" then Vec3(WallDistance, EyeHeight + ySize, -xSize)
    else if word == "above" || word == "arriba" then Vec3(xSize, 6.0, 0.0)
    else if word == "below" || word == "abajo" then Vec3(xSize, -3.0, 0.0)
    else if word == "behind" || word == "atrás" then Vec3(-xSize, EyeHeight + ySize, WallDistance)
    else Vec3(0.0 + xSize, EyeHeight + ySize, -WallDistance)
  }

  /** `getRotation`'s switch: Euler angles in degrees that turn an object to face the viewer. */
  function RotationOf(word: string): (r: Vec3)
    ensures r.z == 0.0 && (r.x == 0.0 || r.y == 0.0)
    ensures r.x == 0.0 || r.x == 90.0 || r.x == -90.0
    ensures r.y == 0.0 || r.y == 90.0 || r.y == -90.0 || r.y == 180.0
  {
    if word == "left" || word == "izquierda" then Vec3(0.0, 90.0, 0.0)
    else if word == "right" || word == "derecha" then Vec3(0.0, -90.0, 0.0)
    else if word == "above" || word == "arriba" then Vec3(90.0, 0.0, 0.0)
    else if word == "below" || word == "abajo" then Vec3(-90.0, 0.0, 0.0)
    else if word == "behind" || word == "atrás" then Vec3(0.0, 180.0, 0.0)
    else Vec3(0.0, 0.0, 0.0)
  }

  /** `getAbsSize(str)`: a uniform scale; anything the switch does not name is unit scale. */
  function AbsSize(word: string): (r: Vec3)
    ensures r.x == r.y == r.z && 0.0 < r.x
  {
    if word == "tiny" || word == "diminuto" then Vec3(1.0 / 3.0, 1.0 / 3.0, 1.0 / 3.0)
    else if word == "small" || word == "pequeño" then Vec3(0.5, 0.5, 0.5)
    else if word == "large" || word == "grande" then Vec3(2.0, 2.0, 2.0)
    else if word == "huge" || word == "enorme" then Vec3(3.0, 3.0, 3.0)
    else Vec3(1.0, 1.0, 1.0)
  }

  /** `convertModelPosition`: 3-D models are anchored 3 units lower, at their base. */
  function ConvertModelPosition(pos: Vec3): (r: Vec3)
    ensures r.x == pos.x && r.z == pos.z && r.y + 3.0 == pos.y
  {
    Vec3(pos.x, pos.y - 3.0, pos.z)
  }

  /** The difference of two positions. */
  function Minus(a: Vec3, b: Vec3): Vec3 {
    Vec3(a.x - b.x, a.y - b.y, a.z - b.z)
  }

  /**
   * Lowering a model is a translation straight down by 3: it moves every point
   * by the same vector, so distinct points stay distinct and the relative
   * placement of models is kept.
   */
  lemma ModelOffsetIsTranslation(a: Vec3, b: Vec3)
    ensures Minus(a, ConvertModelPosition(a)) == Vec3(0.0, 3.0, 0.0)
    ensures Minus(ConvertModelPosition(a), ConvertModelPosition(b)) == Minus(a, b)
    ensures ConvertModelPosition(a) == ConvertModelPosition(b) <==> a == b
  {
  }

  /** Elementwise scaling, the `map(el => el * 5)` of a text's scale. */
  function Scale(v: Vec3, k: real): Vec3 {
    Vec3(v.x * k, v.y * k, v.z * k)
  }

  /** Rotation about the vertical axis by a quarter-turn angle, in degrees. */
  function RotateY(degrees: real, v: Vec3): Vec3
    requires degrees == 0.0 || degrees == 90.0 || degrees == -90.0 || degrees == 180.0
  {
    var c := if degrees == 0.0 then 1.0 else if degrees == 180.0 then -1.0 else 0.0;
    var s := if degrees == 90.0 then 1.0 else if degrees == -90.0 then -1.0 else 0.0;
    Vec3(v.x * c + v.z * s, v.y, -v.x * s + v.z * c)
  }

  /** Every English location word and its Spanish twin give the same position and rotation. */
  lemma BilingualLocations(w: real, h: real)
    ensures forall k :: 0 <= k < |LocationCases| / 2 ==>
      AbsPos(LocationCases[2 * k], w, h) == AbsPos(LocationCases[2 * k + 1], w, h)
      && RotationOf(LocationCases[2 * k]) == RotationOf(LocationCases[2 * k + 1])
  {
    forall k | 0 <= k < |LocationCases| / 2
      ensures AbsPos(LocationCases[2 * k], w, h) == AbsPos(LocationCases[2 * k + 1], w, h)
      ensures RotationOf(LocationCases[2 * k]) == RotationOf(LocationCases[2 * k + 1])
    {
      assert k in {0, 1, 2, 3, 4, 5};
    }
  }

  /** Every English size word and its Spanish twin give the same scale. */
  lemma BilingualSizes()
    ensures forall k :: 0 <= k < |SizeCases| / 2 ==> AbsSize(SizeCases[2 * k]) == AbsSize(SizeCases[2 * k + 1])
  {
    forall k | 0 <= k < |SizeCases| / 2 ensures AbsSize(SizeCases[2 * k]) == AbsSize(SizeCases[2 * k + 1]) {
      assert k in {0, 1, 2, 3};
    }
  }

  /** A word the switches do not name (say "Left", capitalised) gives the front wall and no rotation. */
  lemma UnnamedLocationIsFront(word: string, w: real, h: real)
    requires word !in LocationCases
    ensures AbsPos(word, w, h) == Vec3(-w / 2.0, EyeHeight - h / 2.0, -WallDistance)
    ensures RotationOf(word) == Vec3(0.0, 0.0, 0.0)
  {
    assert forall k :: 0 <= k < |LocationCases| ==> LocationCases[k] != word;
    assert word != LocationCases[0] && word != LocationCases[1] && word != LocationCases[2]
      && word != LocationCases[3] && word != LocationCases[4] && word != LocationCases[5]
      && word != LocationCases[6] && word != LocationCases[7] && word != LocationCases[8]
      && word != LocationCases[9];
  }

  /**
   * The left wall: an object is centred on its height at eye level, 8 units to
   * the left, moved along the wall by half its width; a point object sits at
   * [-8, 1.6, 0].
   */
  lemma LeftWall(w: real, h: real)
    ensures AbsPos("left", w, h) == Vec3(-WallDistance, EyeHeight - h / 2.0, w / 2.0)
    ensures AbsPos("left", 0.0, 0.0) == Vec3(-8.0, 1.6, 0.0)
  {
  }

  /** A word the size switch does not name gives unit scale. */
  lemma UnnamedSizeIsUnit(word: string)
    requires word !in SizeCases
    ensures AbsSize(word) == Vec3(1.0, 1.0, 1.0)
  {
    assert word != SizeCases[0] && word != SizeCases[1] && word != SizeCases[2]
      && word != SizeCases[3] && word != SizeCases[4] && word != SizeCases[5]
      && word != SizeCases[6] && word != SizeCases[7];
  }

  /**
   * The two tables agree with each other on the walls around the viewer: the
   * front anchor carried around the vertical axis by a wall's rotation is that
   * wall's anchor. For the left, behind and front walls this holds for every
   * size; for the right wall only when the width offset is zero, because that
   * row uses the same z offset as the left wall.
   */
  lemma WallsAreRotatedFront(word: string, w: real, h: real)
    requires word in ["left", "izquierda", "behind", "atrás", "front", "frente", "right", "derecha"]
    ensures RotationOf(word).x == 0.0 && RotationOf(word).z == 0.0
    ensures var turn := RotationOf(word).y;
      (turn == 0.0 || turn == 90.0 || turn == -90.0 || turn == 180.0)
      && (word != "right" && word != "derecha" ==> AbsPos(word, w, h) == RotateY(turn, AbsPos("front", w, h)))
      && (word == "right" || word == "derecha" ==> (AbsPos(word, w, h) == RotateY(turn, AbsPos("front", w, h)) <==> w == 0.0))
  {
  }

  /** Every scale is uniform and positive, and the size words are ordered tiny < small < normal < large < huge. */
  lemma SizesAreUniformAndOrdered(word: string)
    ensures AbsSize(word).x == AbsSize(word).y == AbsSize(word).z > 0.0
    ensures AbsSize("tiny").x < AbsSize("small").x < AbsSize("normal").x < AbsSize("large").x < AbsSize("huge").x
  {
  }
}
