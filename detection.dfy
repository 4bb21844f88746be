/**
  Shape classification of one colour mask: does any of its contours look like
  a lit signal lamp, i.e. is it round enough and large enough?

  The contour extraction and the two OpenCV measurements (contourArea,
  arcLength) are not modelled: a contour is given by the two numbers they
  return.
 */
module Detection {

  /** The value of M_PI, written out as a decimal. */
  const Pi: real := 3.14159265358979323846

  /** Thresholds of the classification test. */
  const CircularityThreshold: real := 0.7
  const AreaThreshold: real := 200.0

  /** A non-negative measurement: contourArea without orientation and
      arcLength never return a negative value. */
  type Measure = r: real | 0.0 <= r

  /** A contour as the classifier sees it: its enclosed area and the length of
      its closed boundary. */
  datatype Contour = Contour(area: Measure, perimeter: Measure)

  /** The circularity test `4 * M_PI * (area / (perimeter * perimeter)) > .7`.
      A zero perimeter makes the quotient +infinity when the area is positive
      (the test passes) and NaN when the area is zero (the test fails); a real
      contour with a zero perimeter has a zero area. */
  predicate IsRound(c: Contour)
    ensures c.perimeter == 0.0 ==> (IsRound(c) <==> c.area > 0.0)
  {
    if c.perimeter == 0.0 then c.area > 0.0
    else 4.0 * Pi * (c.area / (c.perimeter * c.perimeter)) > CircularityThreshold
  }

  /** The test a single contour must pass for the mask to hold a light. */
  predicate IsLight(c: Contour)
    ensures IsLight(c) ==> c.area > AreaThreshold
    ensures c.perimeter == 0.0 ==> (IsLight(c) <==> c.area > AreaThreshold)
  {
    IsRound(c) && c.area > AreaThreshold
  }

  /** Reference definition: some contour of the list passes the test. */
  predicate AnyLight(contours: seq<Contour>)
  {
    exists i :: 0 <= i < |contours| && IsLight(contours[i])
  }

  /** The linear search with an early exit: the flag is raised and the loop
      left at the first contour that passes the test. */
  method HasLight(contours: seq<Contour>) returns (hasLight: bool)
    ensures hasLight <==> AnyLight(contours)
  {
    hasLight := false;
    var i := 0;
    while i < |contours|
      invariant 0 <= i <= |contours|
      invariant !hasLight
      invariant forall j :: 0 <= j < i ==> !IsLight(contours[j])
    {
      var contour := contours[i];
      if IsRound(contour) && contour.area > AreaThreshold {
        hasLight := true;
        break;
      }
      i := i + 1;
    }
  }

  /** A list without contours (an empty mask) holds no light. */
  lemma EmptyHasNoLight()
    ensures !AnyLight([])
  {
  }

  /** The verdict depends only on which contours are present, not on their
      order: the search order changes when it stops, never what it returns. */
  lemma {:induction false} AnyLightPermutation(a: seq<Contour>, b: seq<Contour>)
    requires multiset(a) == multiset(b)
    ensures AnyLight(a) <==> AnyLight(b)
  {
    if AnyLight(a) {
      var i :| 0 <= i < |a| && IsLight(a[i]);
      LightMoves(a, b, i);
    }
    if AnyLight(b) {
      var j :| 0 <= j < |b| && IsLight(b[j]);
      LightMoves(b, a, j);
    }
  }

  /** A qualifying contour of one list is found in any permutation of it. */
  lemma LightMoves(a: seq<Contour>, b: seq<Contour>, i: int)
    requires multiset(a) == multiset(b)
    requires 0 <= i < |a| && IsLight(a[i])
    ensures AnyLight(b)
  {
    assert a[i] in multiset(b);
    var j :| 0 <= j < |b| && b[j] == a[i];
  }

  /** Splitting the contour list: a light is found in a concatenation exactly
      when it is found in one of the two parts. In particular, once a prefix
      yields true, appending more contours cannot make the answer false. */
  lemma {:induction false} AnyLightAppend(a: seq<Contour>, b: seq<Contour>)
    ensures AnyLight(a + b) <==> AnyLight(a) || AnyLight(b)
  {
    if AnyLight(a + b) {
      var i :| 0 <= i < |a + b| && IsLight((a + b)[i]);
      if i < |a| {
        assert a[i] == (a + b)[i];
      } else {
        assert b[i - |a|] == (a + b)[i];
      }
    }
    if AnyLight(a) {
      var i :| 0 <= i < |a| && IsLight(a[i]);
      assert (a + b)[i] == a[i];
    }
    if AnyLight(b) {
      var i :| 0 <= i < |b| && IsLight(b[i]);
      assert (a + b)[|a| + i] == b[i];
    }
  }

  /** A digitised circle of radius 10 (area 314.16, perimeter 62.83) has a
      circularity close to 1 and is classified as a light. */
  lemma CircleIsLight()
    ensures IsLight(Contour(314.16, 62.83))
  {
  }

  /** A thin rectangle of the same area as that circle and at least four
      times its perimeter has a circularity below 0.25 and is not a light. */
  lemma ThinRectangleIsNoLight(p: real)
    requires p >= 4.0 * 62.83
    ensures 4.0 * Pi * (314.16 / (p * p)) < 0.25
    ensures !IsLight(Contour(314.16, p))
  {
    var q := 4.0 * 62.83;
    assert p * p >= q * p >= q * q;
    assert 314.16 / (p * p) <= 314.16 / (q * q);
  }
}
