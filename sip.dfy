/** The forward and reverse transforms of the SIP distortion convention
    (Shupe et al. 2005, "The SIP Convention for Representing Distortion in
    FITS Image Headers", section 2), their construction from general
    polynomial transforms, and their assembly into a TAN-SIP WCS record.

    Forward:  uv |-> CD * (duv + P(duv)),            duv = uv - CRPIX
    Reverse:  xy |-> UV + CRPIX + P(UV),             UV  = CD^-1 * xy

    SIP keeps the identity term outside the polynomial sum, so converting a
    general polynomial into SIP form subtracts 1 from the x-coefficient (1, 0)
    and from the y-coefficient (0, 1). */
module Sip {
  import opened Geometry
  import opened Polynomials

  datatype InvalidParameterReason =
    | InconsistentCrpix
    | InconsistentCdMatrix
    | UnsupportedCoordSystem

  /** The exceptions the core can raise: inverting a singular 2x2 matrix, or an
      invalid argument to makeWcs. */
  datatype Error =
    | SingularTransform
    | InvalidParameter(reason: InvalidParameterReason)

  datatype Result<T> = Success(value: T) | Failure(error: Error)

  /** The pixel -> intermediate world coordinate half of a SIP WCS. */
  datatype SipForwardTransform = SipForwardTransform(
    pixelOrigin: Point2,
    cdMatrix: LinearTransform,
    poly: PolynomialTransform)

  /** The intermediate world coordinate -> pixel half of a SIP WCS; the
      constructor caches the inverse of the CD matrix. */
  datatype SipReverseTransform = SipReverseTransform(
    pixelOrigin: Point2,
    cdMatrix: LinearTransform,
    cdInverse: LinearTransform,
    poly: PolynomialTransform)

  /** SipForwardTransform::operator(). */
  function ForwardApply(t: SipForwardTransform, uv: Point2): (r: Point2)
    requires WellFormed(t.poly)
    ensures Det(t.cdMatrix) != 0.0 ==>
      Minus(LinearApply(Invert(t.cdMatrix), r), Minus(uv, t.pixelOrigin))
        == PolyApply(t.poly, Minus(uv, t.pixelOrigin))
  {
    var duv := Minus(uv, t.pixelOrigin);
    var r := LinearApply(t.cdMatrix, Plus(duv, PolyApply(t.poly, duv)));
    if Det(t.cdMatrix) != 0.0 then
      InvertLeft(t.cdMatrix, Plus(duv, PolyApply(t.poly, duv)));
      r
    else r
  }

  /** SipReverseTransform::operator(). */
  function ReverseApply(t: SipReverseTransform, xy: Point2): (r: Point2)
    requires WellFormed(t.poly)
    ensures Det(t.cdMatrix) != 0.0 && t.cdInverse == Invert(t.cdMatrix) ==>
      LinearApply(t.cdMatrix, Minus(Minus(r, t.pixelOrigin), PolyApply(t.poly, LinearApply(t.cdInverse, xy))))
        == xy
  {
    var uv := LinearApply(t.cdInverse, xy);
    var r := Plus(Plus(uv, t.pixelOrigin), PolyApply(t.poly, uv));
    if Det(t.cdMatrix) != 0.0 && t.cdInverse == Invert(t.cdMatrix) then
      assert Minus(Minus(r, t.pixelOrigin), PolyApply(t.poly, uv)) == uv;
      InvertRight(t.cdMatrix, xy);
      r
    else r
  }

  /** The SipReverseTransform constructor: fails when the CD matrix cannot be inverted. */
  function MakeReverse(pixelOrigin: Point2, cdMatrix: LinearTransform, poly: PolynomialTransform)
    : (r: Result<SipReverseTransform>)
    ensures r.Success? <==> Det(cdMatrix) != 0.0
    ensures r.Failure? ==> r.error == SingularTransform
    ensures r.Success? ==>
      && r.value.pixelOrigin == pixelOrigin && r.value.cdMatrix == cdMatrix && r.value.poly == poly
      && r.value.cdInverse == Invert(cdMatrix)
      && forall xy :: LinearApply(cdMatrix, LinearApply(r.value.cdInverse, xy)) == xy
  {
    if Det(cdMatrix) == 0.0 then Failure(SingularTransform)
    else
      assert forall xy :: LinearApply(cdMatrix, LinearApply(Invert(cdMatrix), xy)) == xy by {
        forall xy ensures LinearApply(cdMatrix, LinearApply(Invert(cdMatrix), xy)) == xy {
          InvertRight(cdMatrix, xy);
        }
      }
      Success(SipReverseTransform(pixelOrigin, cdMatrix, Invert(cdMatrix), poly))
  }

  /** Subtracts 1 from the x-coefficient (1, 0) and from the y-coefficient
      (0, 1) in place: the polynomial's value at every d drops by exactly d,
      and no other coefficient changes. */
  method SubtractIdentity(f: PolynomialTransform) returns (r: PolynomialTransform)
    requires WellFormed(f) && f.order >= 1
    ensures WellFormed(r) && r.order == f.order
    ensures forall p, q :: 0 <= p <= f.order && 0 <= q <= f.order ==>
      r.xCoeffs[p][q] == f.xCoeffs[p][q] - (if p == 1 && q == 0 then 1.0 else 0.0)
    ensures forall p, q :: 0 <= p <= f.order && 0 <= q <= f.order ==>
      r.yCoeffs[p][q] == f.yCoeffs[p][q] - (if p == 0 && q == 1 then 1.0 else 0.0)
    ensures forall d :: PolyApply(r, d) == Minus(PolyApply(f, d), d)
  {
    var n := f.order;
    var xCoeffs, yCoeffs := f.xCoeffs, f.yCoeffs;
    xCoeffs := xCoeffs[1 := xCoeffs[1][0 := xCoeffs[1][0] - 1.0]];
    yCoeffs := yCoeffs[0 := yCoeffs[0][1 := yCoeffs[0][1] - 1.0]];
    assert xCoeffs == AddAt(f.xCoeffs, 1, 0, -1.0);
    assert yCoeffs == AddAt(f.yCoeffs, 0, 1, -1.0);
    r := PolynomialTransform(n, xCoeffs, yCoeffs);
    forall d ensures PolyApply(r, d) == Minus(PolyApply(f, d), d) {
      var pu, pv := Powers(d.x), Powers(d.y);
      PowersIsPowerFn(d.x);
      PowersIsPowerFn(d.y);
      TableEvalAddAt(f.xCoeffs, n, 1, 0, -1.0, pu, pv);
      TableEvalAddAt(f.yCoeffs, n, 0, 1, -1.0, pu, pv);
    }
  }

  /** A forward transform whose polynomial is g minus the identity maps uv to
      CD * g(uv - CRPIX). */
  lemma ForwardOfShifted(t: SipForwardTransform, g: PolynomialTransform, uv: Point2)
    requires WellFormed(t.poly) && WellFormed(g)
    requires forall d :: PolyApply(t.poly, d) == Minus(PolyApply(g, d), d)
    ensures ForwardApply(t, uv) == LinearApply(t.cdMatrix, PolyApply(g, Minus(uv, t.pixelOrigin)))
  {
    var duv := Minus(uv, t.pixelOrigin);
    assert PolyApply(t.poly, duv) == Minus(PolyApply(g, duv), duv);
    assert Plus(duv, PolyApply(t.poly, duv)) == PolyApply(g, duv);
  }

  /** A reverse transform whose polynomial is g minus the identity maps xy to
      g(CD^-1 * xy) + CRPIX. */
  lemma ReverseOfShifted(t: SipReverseTransform, g: PolynomialTransform, xy: Point2)
    requires WellFormed(t.poly) && WellFormed(g)
    requires forall d :: PolyApply(t.poly, d) == Minus(PolyApply(g, d), d)
    ensures ReverseApply(t, xy) == Plus(PolyApply(g, LinearApply(t.cdInverse, xy)), t.pixelOrigin)
  {
    var uv := LinearApply(t.cdInverse, xy);
    assert PolyApply(t.poly, uv) == Minus(PolyApply(g, uv), uv);
  }

  /** SipForwardTransform::convert(poly, pixelOrigin, cdMatrix): the SIP form
      of poly about pixelOrigin with the given CD matrix. */
  method ForwardConvert(poly: PolynomialTransform, pixelOrigin: Point2, cdMatrix: LinearTransform)
    returns (r: Result<SipForwardTransform>)
    requires WellFormed(poly) && poly.order >= 1
    ensures r.Success? <==> Det(cdMatrix) != 0.0
    ensures r.Failure? ==> r.error == SingularTransform
    ensures r.Success? ==>
      && r.value.pixelOrigin == pixelOrigin && r.value.cdMatrix == cdMatrix
      && WellFormed(r.value.poly) && r.value.poly.order == poly.order
      && forall uv :: ForwardApply(r.value, uv) == PolyApply(poly, uv)
  {
    if Det(cdMatrix) == 0.0 {
      return Failure(SingularTransform);
    }
    var cdInverse := Invert(cdMatrix);
    var shift := FromTranslation(pixelOrigin);
    var composed := ComposeAffinePoly(FromLinear(cdInverse), ComposePolyAffine(poly, shift));
    var sipPoly := SubtractIdentity(composed);
    var t := SipForwardTransform(pixelOrigin, cdMatrix, sipPoly);
    forall uv ensures ForwardApply(t, uv) == PolyApply(poly, uv) {
      var duv := Minus(uv, pixelOrigin);
      ForwardOfShifted(t, composed, uv);
      ComposeAffinePolyApply(FromLinear(cdInverse), ComposePolyAffine(poly, shift), duv);
      ComposePolyAffineApply(poly, shift, duv);
      assert AffineApply(shift, duv) == uv;
      InvertRight(cdMatrix, PolyApply(poly, uv));
    }
    r := Success(t);
  }

  /** SipForwardTransform::convert(scaled, pixelOrigin, cdMatrix). */
  method ForwardConvertScaled(scaled: ScaledPolynomialTransform, pixelOrigin: Point2, cdMatrix: LinearTransform)
    returns (r: Result<SipForwardTransform>)
    requires WellFormed(scaled.poly) && scaled.poly.order >= 1
    ensures r.Success? <==> Det(cdMatrix) != 0.0
    ensures r.Failure? ==> r.error == SingularTransform
    ensures r.Success? ==>
      && r.value.pixelOrigin == pixelOrigin && r.value.cdMatrix == cdMatrix
      && WellFormed(r.value.poly) && r.value.poly.order == scaled.poly.order
      && forall uv :: ForwardApply(r.value, uv) == ScaledApply(scaled, uv)
  {
    if Det(cdMatrix) == 0.0 {
      return Failure(SingularTransform);
    }
    var cdInverse := Invert(cdMatrix);
    var outer := AffineProduct(FromLinear(cdInverse), scaled.outputScalingInverse);
    var inner := AffineProduct(scaled.inputScaling, FromTranslation(pixelOrigin));
    var composed := ComposeAffinePoly(outer, ComposePolyAffine(scaled.poly, inner));
    var sipPoly := SubtractIdentity(composed);
    var t := SipForwardTransform(pixelOrigin, cdMatrix, sipPoly);
    forall uv ensures ForwardApply(t, uv) == ScaledApply(scaled, uv) {
      var duv := Minus(uv, pixelOrigin);
      ForwardOfShifted(t, composed, uv);
      ComposeAffinePolyApply(outer, ComposePolyAffine(scaled.poly, inner), duv);
      ComposePolyAffineApply(scaled.poly, inner, duv);
      assert AffineApply(FromTranslation(pixelOrigin), duv) == uv;
      InvertRight(cdMatrix, ScaledApply(scaled, uv));
    }
    r := Success(t);
  }

  /** SipForwardTransform::convert(scaled): CRPIX is minus the translation of
      the output scaling inverse and CD the inverse of the input scaling's
      linear part. */
  method ForwardConvertFromScaled(scaled: ScaledPolynomialTransform) returns (r: Result<SipForwardTransform>)
    requires WellFormed(scaled.poly) && scaled.poly.order >= 1
    ensures r.Success? <==> Det(scaled.inputScaling.linear) != 0.0
    ensures r.Failure? ==> r.error == SingularTransform
    ensures r.Success? ==>
      && r.value.pixelOrigin == Negate(scaled.outputScalingInverse.translation)
      && r.value.cdMatrix == Invert(scaled.inputScaling.linear)
      && WellFormed(r.value.poly) && r.value.poly.order == scaled.poly.order
      && forall uv :: ForwardApply(r.value, uv) == ScaledApply(scaled, uv)
  {
    if Det(scaled.inputScaling.linear) == 0.0 {
      return Failure(SingularTransform);
    }
    var pixelOrigin := Negate(scaled.outputScalingInverse.translation);
    var cdMatrix := Invert(scaled.inputScaling.linear);
    r := ForwardConvertScaled(scaled, pixelOrigin, cdMatrix);
  }

  /** SipReverseTransform::convert(poly, pixelOrigin, cdMatrix). */
  method ReverseConvert(poly: PolynomialTransform, pixelOrigin: Point2, cdMatrix: LinearTransform)
    returns (r: Result<SipReverseTransform>)
    requires WellFormed(poly) && poly.order >= 1
    ensures r.Success? <==> Det(cdMatrix) != 0.0
    ensures r.Failure? ==> r.error == SingularTransform
    ensures r.Success? ==>
      && r.value.pixelOrigin == pixelOrigin && r.value.cdMatrix == cdMatrix
      && r.value.cdInverse == Invert(cdMatrix)
      && WellFormed(r.value.poly) && r.value.poly.order == poly.order
      && forall xy :: ReverseApply(r.value, xy) == PolyApply(poly, xy)
  {
    var shift := FromTranslation(Negate(pixelOrigin));
    var composed := ComposeAffinePoly(shift, ComposePolyAffine(poly, FromLinear(cdMatrix)));
    var sipPoly := SubtractIdentity(composed);
    r := MakeReverse(pixelOrigin, cdMatrix, sipPoly);
    if r.Success? {
      var t := r.value;
      forall xy ensures ReverseApply(t, xy) == PolyApply(poly, xy) {
        var uv := LinearApply(t.cdInverse, xy);
        ReverseOfShifted(t, composed, xy);
        ComposeAffinePolyApply(shift, ComposePolyAffine(poly, FromLinear(cdMatrix)), uv);
        ComposePolyAffineApply(poly, FromLinear(cdMatrix), uv);
        assert AffineApply(FromLinear(cdMatrix), uv) == xy;
      }
    }
  }

  /** SipReverseTransform::convert(scaled, pixelOrigin, cdMatrix). */
  method ReverseConvertScaled(scaled: ScaledPolynomialTransform, pixelOrigin: Point2, cdMatrix: LinearTransform)
    returns (r: Result<SipReverseTransform>)
    requires WellFormed(scaled.poly) && scaled.poly.order >= 1
    ensures r.Success? <==> Det(cdMatrix) != 0.0
    ensures r.Failure? ==> r.error == SingularTransform
    ensures r.Success? ==>
      && r.value.pixelOrigin == pixelOrigin && r.value.cdMatrix == cdMatrix
      && r.value.cdInverse == Invert(cdMatrix)
      && WellFormed(r.value.poly) && r.value.poly.order == scaled.poly.order
      && forall xy :: ReverseApply(r.value, xy) == ScaledApply(scaled, xy)
  {
    var outer := AffineProduct(FromTranslation(Negate(pixelOrigin)), scaled.outputScalingInverse);
    var inner := AffineProduct(scaled.inputScaling, FromLinear(cdMatrix));
    var composed := ComposeAffinePoly(outer, ComposePolyAffine(scaled.poly, inner));
    var sipPoly := SubtractIdentity(composed);
    r := MakeReverse(pixelOrigin, cdMatrix, sipPoly);
    if r.Success? {
      var t := r.value;
      forall xy ensures ReverseApply(t, xy) == ScaledApply(scaled, xy) {
        var uv := LinearApply(t.cdInverse, xy);
        ReverseOfShifted(t, composed, xy);
        ComposeAffinePolyApply(outer, ComposePolyAffine(scaled.poly, inner), uv);
        ComposePolyAffineApply(scaled.poly, inner, uv);
        assert AffineApply(FromLinear(cdMatrix), uv) == xy;
      }
    }
  }

  /** SipReverseTransform::convert(scaled): CRPIX is the translation of the
      output scaling inverse and CD the input scaling's linear part. */
  method ReverseConvertFromScaled(scaled: ScaledPolynomialTransform) returns (r: Result<SipReverseTransform>)
    requires WellFormed(scaled.poly) && scaled.poly.order >= 1
    ensures r.Success? <==> Det(scaled.inputScaling.linear) != 0.0
    ensures r.Failure? ==> r.error == SingularTransform
    ensures r.Success? ==>
      && r.value.pixelOrigin == scaled.outputScalingInverse.translation
      && r.value.cdMatrix == scaled.inputScaling.linear
      && r.value.cdInverse == Invert(scaled.inputScaling.linear)
      && WellFormed(r.value.poly) && r.value.poly.order == scaled.poly.order
      && forall xy :: ReverseApply(r.value, xy) == ScaledApply(scaled, xy)
  {
    r := ReverseConvertScaled(scaled, scaled.outputScalingInverse.translation, scaled.inputScaling.linear);
  }

  // ---------------------------------------------------------------------------
  // makeWcs
  // ---------------------------------------------------------------------------

  /** The celestial coordinate systems of a sky position. */
  datatype CoordSystem = Unknown | FK5 | ICRS | Galactic | Ecliptic | Topocentric

  /** A sky position: its coordinate system, its (longitude, latitude) in
      degrees and its epoch. */
  datatype Coord = Coord(coordSystem: CoordSystem, position: Point2, epoch: real)

  /** The arguments a TAN-SIP WCS is built from. */
  datatype TanWcs = TanWcs(
    crval: Point2,
    crpix: Point2,
    cd: LinearTransform,
    sipA: Table,
    sipB: Table,
    sipAP: Table,
    sipBP: Table,
    epoch: real,
    coordSys: string)

  /** makeWcs: checks that the two halves agree on CRPIX, then on the CD
      matrix, then that the sky origin is in ICRS or FK5, and assembles the
      WCS from the forward transform's CRPIX, CD and A/B coefficients and the
      reverse transform's AP/BP coefficients. */
  method MakeWcs(sipForward: SipForwardTransform, sipReverse: SipReverseTransform, skyOrigin: Coord)
    returns (r: Result<TanWcs>)
    ensures sipForward.pixelOrigin != sipReverse.pixelOrigin ==>
      r == Failure(InvalidParameter(InconsistentCrpix))
    ensures sipForward.pixelOrigin == sipReverse.pixelOrigin && sipForward.cdMatrix != sipReverse.cdMatrix ==>
      r == Failure(InvalidParameter(InconsistentCdMatrix))
    ensures sipForward.pixelOrigin == sipReverse.pixelOrigin && sipForward.cdMatrix == sipReverse.cdMatrix
            && skyOrigin.coordSystem != ICRS && skyOrigin.coordSystem != FK5 ==>
      r == Failure(InvalidParameter(UnsupportedCoordSystem))
    ensures r.Success? <==>
      && sipForward.pixelOrigin == sipReverse.pixelOrigin
      && sipForward.cdMatrix == sipReverse.cdMatrix
      && (skyOrigin.coordSystem == ICRS || skyOrigin.coordSystem == FK5)
    ensures r.Success? ==>
      && r.value.crval == skyOrigin.position
      && r.value.crpix == sipForward.pixelOrigin
      && r.value.cd == sipForward.cdMatrix
      && r.value.sipA == sipForward.poly.xCoeffs
      && r.value.sipB == sipForward.poly.yCoeffs
      && r.value.sipAP == sipReverse.poly.xCoeffs
      && r.value.sipBP == sipReverse.poly.yCoeffs
      && r.value.epoch == skyOrigin.epoch
      && r.value.coordSys == (if skyOrigin.coordSystem == ICRS then "ICRS" else "FK5")
  {
    if sipForward.pixelOrigin != sipReverse.pixelOrigin {
      return Failure(InvalidParameter(InconsistentCrpix));
    }
    if sipForward.cdMatrix != sipReverse.cdMatrix {
      return Failure(InvalidParameter(InconsistentCdMatrix));
    }
    var sipA, sipB := sipForward.poly.xCoeffs, sipForward.poly.yCoeffs;
    var sipAP, sipBP := sipReverse.poly.xCoeffs, sipReverse.poly.yCoeffs;
    var coordSys: string;
    match skyOrigin.coordSystem {
      case ICRS => coordSys := "ICRS";
      case FK5 => coordSys := "FK5";
      case _ => return Failure(InvalidParameter(UnsupportedCoordSystem));
    }
    r := Success(TanWcs(skyOrigin.position, sipForward.pixelOrigin, sipForward.cdMatrix,
      sipA, sipB, sipAP, sipBP, skyOrigin.epoch, coordSys));
  }

  /** A polynomial transform whose every coefficient is zero. */
  predicate NoDistortion(f: PolynomialTransform)
  {
    f.xCoeffs == ZeroTable(f.order) && f.yCoeffs == ZeroTable(f.order)
  }

  lemma NoDistortionApply(f: PolynomialTransform, d: Point2)
    requires NoDistortion(f)
    ensures WellFormed(f) && PolyApply(f, d) == Point2(0.0, 0.0)
  {
    TableEvalUpToZero(f.order, f.order + 1, Powers(d.x), Powers(d.y));
  }

  /** Without distortion, a forward and a reverse transform that makeWcs
      accepts as a pair (same CRPIX, same CD matrix, cached inverse of CD)
      are inverse to each other. */
  lemma UndistortedPairRoundTrip(sipForward: SipForwardTransform, sipReverse: SipReverseTransform, uv: Point2)
    requires NoDistortion(sipForward.poly) && NoDistortion(sipReverse.poly)
    requires sipForward.pixelOrigin == sipReverse.pixelOrigin && sipForward.cdMatrix == sipReverse.cdMatrix
    requires Det(sipReverse.cdMatrix) != 0.0 && sipReverse.cdInverse == Invert(sipReverse.cdMatrix)
    ensures WellFormed(sipForward.poly) && WellFormed(sipReverse.poly)
    ensures ReverseApply(sipReverse, ForwardApply(sipForward, uv)) == uv
  {
    var duv := Minus(uv, sipForward.pixelOrigin);
    NoDistortionApply(sipForward.poly, duv);
    var xy := ForwardApply(sipForward, uv);
    assert xy == LinearApply(sipForward.cdMatrix, duv);
    InvertLeft(sipForward.cdMatrix, duv);
    NoDistortionApply(sipReverse.poly, duv);
  }

  /** A forward and a reverse transform converted from mutually inverse
      polynomials about the same CRPIX and CD form a pair that makeWcs
      accepts for an ICRS or FK5 sky origin, and the reverse transform
      undoes the forward one at every pixel. */
  method ConvertedPairRoundTrip(f: PolynomialTransform, g: PolynomialTransform, pixelOrigin: Point2,
                                cdMatrix: LinearTransform, skyOrigin: Coord, uv: Point2)
    returns (wcs: Result<TanWcs>, back: Point2)
    requires WellFormed(f) && f.order >= 1 && WellFormed(g) && g.order >= 1
    requires forall p :: PolyApply(g, PolyApply(f, p)) == p
    requires Det(cdMatrix) != 0.0
    ensures wcs.Success? <==> skyOrigin.coordSystem == ICRS || skyOrigin.coordSystem == FK5
    ensures back == uv
  {
    var fw := ForwardConvert(f, pixelOrigin, cdMatrix);
    var rv := ReverseConvert(g, pixelOrigin, cdMatrix);
    wcs := MakeWcs(fw.value, rv.value, skyOrigin);
    back := ReverseApply(rv.value, ForwardApply(fw.value, uv));
    assert ForwardApply(fw.value, uv) == PolyApply(f, uv);
  }
}
