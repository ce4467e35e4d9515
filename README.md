# SIP transforms of meas_astrom, modelled in Dafny

This project models how meas_astrom builds SIP (Simple Imaging Polynomial) distortion
transforms and assembles them into a TAN-SIP WCS (world coordinate system).

- A `SipForwardTransform` maps pixel coordinates to intermediate world coordinates:
  `uv |-> CD * (duv + A(duv))`, where `duv = uv - CRPIX`.
- A `SipReverseTransform` maps intermediate world coordinates back to pixels:
  `xy |-> UV + CRPIX + AP(UV)`, where `UV = CD^-1 * xy`.
- Each has three `convert` overloads. Each overload turns a general polynomial
  transform, or a scaled one, into SIP form. It does this by composing with the
  affine maps for CRPIX and CD. Because SIP keeps the identity term outside the sum,
  it then subtracts 1 from the x-coefficient (1, 0) and from the y-coefficient (0, 1).
- `makeWcs` checks that a forward and a reverse transform agree on CRPIX and on the CD
  matrix. It then checks that the sky origin is in ICRS or FK5, and collects the
  fields of the TAN-SIP WCS.

The project also models the id join from the photometry example. There, each
match's detected source is replaced by the catalog source with the same id, and the
replacements are counted.

Modules:

- `Geometry` (geometry.dfy): points, 2x2 linear transforms and their inverse, and affine
  transforms and their product, all over exact reals.
- `Polynomials` (polynomials.dfy): `PolynomialTransform` is an order plus two dense
  coefficient tables of size (n+1) x (n+1), evaluated over `p + q <= n`.
  - `ScaledPolynomialTransform` is a polynomial between two affine scalings.
  - The two `compose` operations are meas_astrom's own polynomial-transform code, in
    files that are not part of this model. They get a construction of their own here,
    through sparse monomial lists. What the rest of the model relies on is their
    evaluation contract.
- `Sip` (sip.dfy): the two transforms and their evaluation, the six conversions, the
  in-place coefficient correction, and `MakeWcs`.
- `PhotometryJoin` (photometry.dfy): the id -> source dictionary and the join loop over
  an array of matches.

Errors are values. `Result<T>` is either `Success(value)` or `Failure(error)`:

- `SingularTransform` stands for the exception raised when a singular CD matrix or
  scaling is inverted.
- `InvalidParameter(reason)` stands for the three `InvalidParameterError` throws of
  `makeWcs`.

## Model

| member | source | states |
|---|---|---|
| Sip.ForwardConvert | src/SipTransform.cc:33-51 | fails with SingularTransform exactly when CD is singular; otherwise keeps CRPIX, CD and the polynomial order, and the resulting SIP forward transform maps every pixel to exactly what the given polynomial maps it to |
| Sip.ForwardConvertScaled | src/SipTransform.cc:53-70 | fails exactly when CD is singular; otherwise keeps CRPIX, CD and the order, and the SIP forward transform agrees at every point with the scaled polynomial (output scaling inverse after poly after input scaling) |
| Sip.ForwardConvertFromScaled | src/SipTransform.cc:72-76 | fails exactly when the input scaling's linear part is singular; otherwise CRPIX is minus the output-scaling-inverse translation, CD is the inverse of the input scaling's linear part, and the result agrees everywhere with the scaled polynomial |
| Sip.ReverseConvert | src/SipTransform.cc:90-107 | fails exactly when CD is singular (the reverse constructor inverts it); otherwise keeps CRPIX, CD and the order, caches the inverse of CD, and the SIP reverse transform maps every intermediate world point to exactly what the given polynomial maps it to |
| Sip.ReverseConvertScaled | src/SipTransform.cc:109-127 | fails exactly when CD is singular; otherwise keeps CRPIX, CD and the order, caches the inverse of CD, and the SIP reverse transform agrees everywhere with the scaled polynomial |
| Sip.ReverseConvertFromScaled | src/SipTransform.cc:129-135 | fails exactly when the input scaling's linear part is singular; otherwise CRPIX is the output-scaling-inverse translation, CD is the input scaling's linear part, the cached inverse is its inverse, and the result agrees everywhere with the scaled polynomial |
| Sip.SubtractIdentity | src/SipTransform.cc:45-49 | only the x-coefficient (1, 0) and the y-coefficient (0, 1) change, each by -1; the polynomial's value at every point d drops by exactly d |
| Sip.MakeReverse | src/SipTransform.cc:106 | the reverse transform exists exactly when CD is invertible; it stores CRPIX, CD and the polynomial, and caches the inverse of CD, a right inverse of it |
| Sip.ForwardApply | src/SipTransform.cc:85-88 | for a non-singular CD, taking the result back through CD^-1 and removing the offset duv = uv - CRPIX leaves exactly the distortion P(duv) |
| Sip.ReverseApply | src/SipTransform.cc:143-146 | when the cached inverse is the inverse of CD, removing CRPIX and the distortion P(UV) from the result and applying CD gives back xy |
| Sip.ForwardOfShifted | src/SipTransform.cc:85-88 | a forward transform whose polynomial is g minus the identity evaluates uv as CD * g(uv - CRPIX) |
| Sip.ReverseOfShifted | src/SipTransform.cc:143-146 | a reverse transform whose polynomial is g minus the identity evaluates xy as g(CD^-1 * xy) + CRPIX |
| Sip.MakeWcs | src/SipTransform.cc:149-200 | a CRPIX mismatch is reported first, then a CD mismatch, then an unsupported coordinate system; it succeeds exactly when none applies; on success the WCS carries the sky position, the forward CRPIX and CD, A/B from the forward polynomial, AP/BP from the reverse one, the epoch, and "ICRS" or "FK5" |
| Sip.NoDistortionApply | src/SipTransform.cc:87 | an all-zero coefficient table set evaluates to (0, 0) everywhere |
| Sip.ConvertedPairRoundTrip | src/SipTransform.cc:149-200 | converting mutually inverse polynomials about the same non-singular CRPIX and CD gives a pair that makeWcs accepts exactly for an ICRS or FK5 sky origin, and the reverse transform undoes the forward one: reverse(forward(uv)) == uv |
| Sip.UndistortedPairRoundTrip | src/SipTransform.cc:143-146 | without distortion, a reverse transform with the same CRPIX and CD as a forward one, caching the inverse of CD, undoes it: reverse(forward(uv)) == uv |
| Polynomials.ComposePolyAffineApply | src/SipTransform.cc:40-43 | compose(poly, affine) evaluates at every point as poly applied after the affine map |
| Polynomials.ComposeAffinePolyApply | src/SipTransform.cc:38-44 | compose(affine, poly) evaluates at every point as the affine map applied after poly |
| Polynomials.TableEvalAddAt | src/SipTransform.cc:48 | adding delta to coefficient (p, q) with p + q <= n changes the value by delta * u^p * v^q |
| Geometry.InvertLeft | src/SipTransform.cc:39 | CD^-1 * (CD * p) == p for a non-singular CD |
| Geometry.InvertRight | src/SipTransform.cc:144 | CD * (CD^-1 * p) == p for a non-singular CD |
| Geometry.AffineProduct | src/SipTransform.cc:59 | the product a * b of two affine transforms applies b, then a, at every point |
| PhotometryJoin.IdToSource | examples/photometry_plot.py:73 | the dictionary's keys are exactly the ids of the catalog sources, and each key maps to a catalog source with that id |
| PhotometryJoin.IdToSourceLastWins | examples/photometry_plot.py:73 | with duplicate ids, the dictionary holds the source at the last index with that id |
| PhotometryJoin.JoinSources | examples/photometry_plot.py:74-80 | the array becomes the match list with every found match's second replaced by the catalog source of its id, and the counter ends at the number of found matches, at most the list length |
| PhotometryJoin.JoinAllElement | examples/photometry_plot.py:76-80 | a found match gets the catalog source of its own id, so its id is unchanged; a match whose id is absent is left unchanged; the reference object never changes |
| PhotometryJoin.CountFoundIsCardinality | examples/photometry_plot.py:74-80 | the final count is the number of indices whose source id is a key of the dictionary |

## Left out

- Floating point: all arithmetic is over exact reals, and `isApprox` in `makeWcs` is
  exact equality.
- Singular matrices: `LinearTransform::invert` fails exactly when the determinant is 0.
  Near-singular matrices are not distinguished.
- The exception message strings of `makeWcs` are not modelled, only which error is
  raised.
- `compose` and the evaluation of `PolynomialTransform` and `ScaledPolynomialTransform`
  are meas_astrom's own polynomial-transform code (the same package as SipTransform.cc,
  which edits their coefficients directly). The files that define them are not part
  of this model.
  - `Polynomials.ComposePolyAffine` and `Polynomials.ComposeAffinePoly` are this model's
    own construction of `compose`. Only their evaluation contracts, and the fact that
    they keep the polynomial's order and table shape, stand for the package's code.
  - `ScaledPolynomialTransform` is taken to evaluate as output scaling inverse after
    the polynomial after input scaling.
- Sip.ForwardConvert: requires a polynomial of order at least 1. The source indexes
  coefficients (1, 0) and (0, 1) without a check, so order 0 falls outside this model.
- Sip.ForwardConvertScaled: requires order at least 1, for the same reason.
- Sip.ForwardConvertFromScaled: requires order at least 1, for the same reason.
- Sip.ReverseConvert: requires order at least 1, for the same reason.
- Sip.ReverseConvertScaled: requires order at least 1, for the same reason.
- Sip.ReverseConvertFromScaled: requires order at least 1, for the same reason.
- Sip.SubtractIdentity: requires order at least 1, for the same reason.
- `SipForwardTransform::linearize` and `SipReverseTransform::linearize` are not
  modelled. They need the polynomial's derivative, which the model does not define.
- `TanWcs` is the record of the arguments `makeWcs` passes.
  - `Coord`'s conversion of the position to degrees is not modelled; the position is
    passed through.
  - The epoch is passed through as a real.
  - The shared-pointer result is not modelled.
- The constructors of the transforms and their accessors are modelled as datatype
  fields. The reverse constructor's inversion of CD is `Sip.MakeReverse`.
- PhotometryJoin.JoinSources: Python objects are references, so `smv2[i].second = ...`
  also aliases the catalog's object. The model stores values, so this aliasing is not
  captured.
- `Source` keeps only the source id and one flux field.
- The rest of examples/photometry_plot.py is not modelled. That covers I/O, printing,
  the match lists and plotting.
- tests/createWcsWithSip.py is not modelled. It runs `determineWcs2` from the
  astrometry.net solver on FITS catalogues, matches with `MatchSrcToCatalogue` and
  filters with `cleanBadPoints.clean`. `singleTestInstance` returns (line 132) before
  `sip.makeCreateWcsWithSip`; `testBigXy0` gets its SIP WCS from the external
  `determineWcs2`; no line of the file calls `SipForwardTransform`,
  `SipReverseTransform` or `makeWcs` directly.
- examples/solvestats.py and include/lsst/meas/astrom/net/GlobalAstrometrySolution.h are
  not part of this model.
