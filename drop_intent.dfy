/** The drop-intent classifier: the pointer's offset within the box of the
    entry under it decides where the dragged entry goes. */
module DropIntent {
  import opened MenuTree

  /** The top quarter of the box means `Before`, the bottom quarter `After`,
      the middle half, both boundaries included, `Inside`. `y` is the pointer's
      offset from the top of the box and `height` the box's height. */
  function Classify(y: real, height: real): (r: Position)
    ensures height > 0.0 ==> (r == Before <==> y / height < 0.25)
    ensures height > 0.0 ==> (r == After <==> y / height > 0.75)
    ensures height > 0.0 ==> (r == Inside <==> 0.25 <= y / height <= 0.75)
  {
    FractionCompare(y, height, 0.25);
    FractionCompare(y, height, 0.75);
    if y < height * 0.25 then Before
    else if y > height * 0.75 then After
    else Inside
  }

  lemma FractionCompare(y: real, height: real, c: real)
    ensures height > 0.0 ==> (y < height * c <==> y / height < c)
    ensures height > 0.0 ==> (y > height * c <==> y / height > c)
  {
    if height > 0.0 {
      assert y == (y / height) * height;
    }
  }

  /** Top to bottom order of the three bands. */
  function Band(p: Position): nat
  {
    match p
    case Before => 0
    case Inside => 1
    case After => 2
  }

  /** Moving the pointer down never moves the intent up: the bands are
      stacked `Before`, `Inside`, `After` from the top of the box. */
  lemma ClassifyMonotone(y1: real, y2: real, height: real)
    requires 0.0 <= height && y1 <= y2
    ensures Band(Classify(y1, height)) <= Band(Classify(y2, height))
  {
  }

  /** Only the pointer's fraction of the box height matters. */
  lemma ClassifyScale(y: real, height: real, k: real)
    requires k > 0.0
    ensures Classify(k * y, k * height) == Classify(y, height)
  {
    assert k * height * 0.25 == k * (height * 0.25);
    assert k * height * 0.75 == k * (height * 0.75);
    assert y < height * 0.25 <==> k * y < k * (height * 0.25);
    assert y > height * 0.75 <==> k * y > k * (height * 0.75);
  }

  /** In a box 100 high the pointer at 24 means `Before`, at 25, 50 and 75
      `Inside`, and at 76 `After`. */
  lemma ClassifyBoundaries()
    ensures Classify(24.0, 100.0) == Before
    ensures Classify(25.0, 100.0) == Inside
    ensures Classify(50.0, 100.0) == Inside
    ensures Classify(75.0, 100.0) == Inside
    ensures Classify(76.0, 100.0) == After
  {
  }
}
