/** A software version "major.minor", stored as the decimal value
    major * 100 + minor in a 16-bit word; 0xFFFF stands for no version. */
module Version {
  import opened Bytes

  const NO_VERSION: u16 := 0xFFFF

  datatype Version = None | Simple(major: u16, minor: byte)

  /** `Version::new_raw`: the two low decimal digits are the minor. */
  function NewRaw(value: u16): (v: Version)
    ensures v.None? <==> value == NO_VERSION
    ensures v.Simple? ==> v.minor < 100 && v.major as int * 100 + v.minor as int == value as int
  {
    if value == NO_VERSION then None
    else Simple(value / 100, value % 100)
  }

  /** `Version::new`: the version is kept as given, so it survives
      `value` then `new_raw` exactly when it is in the range `new_raw`
      produces. */
  function New(major: u16, minor: byte): (v: Version)
    ensures v.Simple? && v.major == major && v.minor == minor
    ensures NewRaw(Value(v)) == v <==> minor < 100 && major as int * 100 + minor as int < NO_VERSION as int
  {
    NewRawValue(Simple(major, minor));
    Simple(major, minor)
  }

  /** `Version::value`; `major * 100 + minor` is u16 arithmetic, which
      wraps past 0xFFFF. */
  function Value(v: Version): (r: u16)
    ensures v.None? ==> r == NO_VERSION
    ensures v.Simple? && v.major as int * 100 + v.minor as int < 0x1_0000 ==>
              r as int == v.major as int * 100 + v.minor as int
  {
    match v
    case None => NO_VERSION
    case Simple(major, minor) => (major * 100 + minor) % 0x1_0000
  }

  /** The versions `new_raw` can produce. */
  predicate Canonical(v: Version)
  {
    v.Simple? ==> v.minor < 100 && v.major as int * 100 + v.minor as int < NO_VERSION as int
  }

  /** Every raw value survives the trip through a Version. */
  lemma ValueNewRaw(x: u16)
    ensures Value(NewRaw(x)) == x
    ensures Canonical(NewRaw(x))
  {
  }

  /** A Version survives the trip through its raw value exactly when it
      is canonical. */
  lemma NewRawValue(v: Version)
    ensures NewRaw(Value(v)) == v <==> Canonical(v)
  {
    if v.Simple? && Canonical(v) {
      var x := v.major as int * 100 + v.minor as int;
      assert Value(v) as int == x;
      assert x / 100 == v.major as int && x % 100 == v.minor as int;
    }
  }

  /** The example of the library's documentation: 380 reads as v3.80. */
  lemma NewRawExample()
    ensures NewRaw(380) == Simple(3, 80)
  {
  }
}
