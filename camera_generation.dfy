/**
  `CameraGeneration`: the sensor generation of a camera as a (major, minor)
  pair of C++ `short`s, and its six comparison operators. `Private` holds the
  two values; the public object owns one `Private` and delegates every
  operator to it.
 */
module CameraGenerationModel {
  import opened Wrappers

  /** A C++ `short`. */
  newtype Short = x: int | -0x8000 <= x < 0x8000

  /** The conversion of an `int` to `short` at the call to `build(short, short)`:
      the value is taken modulo 2^16 into the signed range. */
  function ToShort(x: int): (s: Short)
    ensures -0x8000 <= x < 0x8000 ==> s as int == x
    ensures (s as int - x) % 0x1_0000 == 0
  {
    var r := (x + 0x8000) % 0x1_0000 - 0x8000;
    assert (r - x) % 0x1_0000 == 0 by {
      assert r - x == (x + 0x8000) % 0x1_0000 - (x + 0x8000);
    }
    r as Short
  }

  datatype Private = Private(major: Short, minor: Short)

  datatype CameraError = DeprecatedFeature

  /** `Private::build(short, short)`. */
  function Build(versionMajor: Short, versionMinor: Short): (g: Private)
    ensures g.major == versionMajor && g.minor == versionMinor
  {
    Private(versionMajor, versionMinor)
  }

  /** `Private::build(Device&)`: the sensor information's version numbers,
      narrowed to `short`. */
  function BuildFromSensor(sensorMajor: int, sensorMinor: int): (g: Private)
    ensures -0x8000 <= sensorMajor < 0x8000 ==> g.major as int == sensorMajor
    ensures -0x8000 <= sensorMinor < 0x8000 ==> g.minor as int == sensorMinor
  {
    Build(ToShort(sensorMajor), ToShort(sensorMinor))
  }

  predicate Eq(a: Private, b: Private) {
    a.major == b.major && a.minor == b.minor
  }

  predicate Ne(a: Private, b: Private) {
    !Eq(a, b)
  }

  predicate Lt(a: Private, b: Private) {
    a.major < b.major || (a.major == b.major && a.minor < b.minor)
  }

  predicate Le(a: Private, b: Private) {
    Eq(a, b) || Lt(a, b)
  }

  predicate Gt(a: Private, b: Private) {
    !Le(a, b)
  }

  predicate Ge(a: Private, b: Private) {
    Eq(a, b) || Gt(a, b)
  }

  /** An independent reference for the order: both numbers packed into one
      integer, the major number in the high part. */
  function Key(g: Private): (k: int)
    ensures g.major as int * 0x1_0000 - 0x8000 <= k < g.major as int * 0x1_0000 + 0x8000
  {
    g.major as int * 0x1_0000 + g.minor as int
  }

  lemma {:induction false} KeyOrderIsMajorFirst(a: Private, b: Private)
    requires a.major < b.major
    ensures Key(a) < Key(b)
  {
    var ma, mb := a.major as int, b.major as int;
    assert ma * 0x1_0000 + 0x1_0000 <= mb * 0x1_0000 by {
      assert (mb - ma) * 0x1_0000 >= 0x1_0000;
    }
  }

  /** `<` is exactly the order of the packed keys. */
  lemma LtIsKeyOrder(a: Private, b: Private)
    ensures Lt(a, b) <==> Key(a) < Key(b)
  {
    if a.major < b.major {
      KeyOrderIsMajorFirst(a, b);
    } else if b.major < a.major {
      KeyOrderIsMajorFirst(b, a);
    }
  }

  /** `==` is equality of the stored pair. */
  lemma EqIsEquality(a: Private, b: Private)
    ensures Eq(a, b) <==> a == b
    ensures Ne(a, b) <==> a != b
  {
  }

  /** Exactly one of `<`, `==`, `>` holds, and `>` is the converse of `<`. */
  lemma Trichotomy(a: Private, b: Private)
    ensures Lt(a, b) || Eq(a, b) || Gt(a, b)
    ensures !(Lt(a, b) && Eq(a, b)) && !(Lt(a, b) && Gt(a, b)) && !(Eq(a, b) && Gt(a, b))
    ensures Gt(a, b) <==> Lt(b, a)
    ensures Ge(a, b) <==> Le(b, a)
    ensures Ge(a, b) <==> !Lt(a, b)
  {
  }

  /** `<=` is a total order: reflexive, antisymmetric, transitive and total. */
  lemma LeIsTotalOrder(a: Private, b: Private, c: Private)
    ensures Le(a, a)
    ensures Le(a, b) && Le(b, a) ==> a == b
    ensures Le(a, b) && Le(b, c) ==> Le(a, c)
    ensures Le(a, b) || Le(b, a)
  {
    LtIsKeyOrder(a, b);
    LtIsKeyOrder(b, c);
    LtIsKeyOrder(a, c);
    LtIsKeyOrder(b, a);
  }

  /** `<` is a strict order: irreflexive and transitive. */
  lemma LtIsStrictOrder(a: Private, b: Private, c: Private)
    ensures !Lt(a, a)
    ensures Lt(a, b) && Lt(b, c) ==> Lt(a, c)
  {
  }

  /** The public `CameraGeneration` object: it owns one `Private`. */
  datatype CameraGeneration = CameraGeneration(pimpl: Private) {

    function VersionMajor(): (v: Short)
      ensures v == pimpl.major
    {
      pimpl.major
    }

    function VersionMinor(): (v: Short)
      ensures v == pimpl.minor
    {
      pimpl.minor
    }

    /** `type()` is no longer supported: it always throws. */
    function Type(): (r: Outcome<CameraError>)
      ensures r == Fail(DeprecatedFeature)
    {
      Fail(DeprecatedFeature)
    }

    predicate EqualTo(c: CameraGeneration) { Eq(pimpl, c.pimpl) }
    predicate NotEqualTo(c: CameraGeneration) { Ne(pimpl, c.pimpl) }
    predicate LessThan(c: CameraGeneration) { Lt(pimpl, c.pimpl) }
    predicate AtMost(c: CameraGeneration) { Le(pimpl, c.pimpl) }
    predicate GreaterThan(c: CameraGeneration) { Gt(pimpl, c.pimpl) }
    predicate AtLeast(c: CameraGeneration) { Ge(pimpl, c.pimpl) }
  }

  /** What `build(major, minor)` stores, the public accessors give back. */
  lemma BuildThenVersions(versionMajor: Short, versionMinor: Short)
    ensures CameraGeneration(Build(versionMajor, versionMinor)).VersionMajor() == versionMajor
    ensures CameraGeneration(Build(versionMajor, versionMinor)).VersionMinor() == versionMinor
  {
  }

  /** The public operators order generations lexicographically by (major, minor). */
  lemma PublicOrderIsLexicographic(a: CameraGeneration, b: CameraGeneration)
    ensures a.LessThan(b) <==> Key(a.pimpl) < Key(b.pimpl)
    ensures a.EqualTo(b) <==> a.VersionMajor() == b.VersionMajor() && a.VersionMinor() == b.VersionMinor()
    ensures a.NotEqualTo(b) <==> !a.EqualTo(b)
    ensures a.GreaterThan(b) <==> b.LessThan(a)
    ensures a.AtMost(b) <==> !b.LessThan(a)
    ensures a.AtLeast(b) <==> !a.LessThan(b)
  {
    LtIsKeyOrder(a.pimpl, b.pimpl);
  }
}
