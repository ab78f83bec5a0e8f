/** The `Header` value class: a name and a value, either of which may be null,
    with field-wise `equals` and the conventional `31 * h(name) + h(value)` hash. */
module HeaderModel {
  import opened Wrappers

  /** Kotlin's `Int`. */
  newtype Int32 = x: int | -0x8000_0000 <= x < 0x8000_0000

  /** Two's-complement wrap-around of 32-bit arithmetic. */
  function Wrap32(x: int): (r: Int32)
    ensures (r as int - x) % 0x1_0000_0000 == 0
    ensures -0x8000_0000 <= x < 0x8000_0000 ==> r as int == x
  {
    ((x + 0x8000_0000) % 0x1_0000_0000 - 0x8000_0000) as Int32
  }

  /** `None` stands for Kotlin's `null`. */
  datatype Header = Header(name: Option<string>, value: Option<string>) {

    function Name(): Option<string> {
      name
    }

    function Value(): Option<string> {
      value
    }

    /** `equals(o)`: `None` stands for a null argument or an object of another
        class; otherwise the names are compared, then the values, with null
        equal only to null. */
    predicate Equals(o: Option<Header>) {
      if o.None? then false
      else if (if name.Some? then name != o.value.name else o.value.name.Some?) then false
      else if value.Some? then value == o.value.value
      else o.value.value.None?
    }

    /** `hashCode()`, given the hash of a string; null hashes to 0. */
    function HashCode(stringHash: string -> Int32): Int32 {
      var result: int := if name.Some? then stringHash(name.value) as int else 0;
      Wrap32(31 * result + (if value.Some? then stringHash(value.value) as int else 0))
    }
  }

  /** The accessors hand back the constructor arguments, null included. */
  lemma AccessorsReturnArguments(name: Option<string>, value: Option<string>)
    ensures Header(name, value).Name() == name
    ensures Header(name, value).Value() == value
  {
  }

  /** Two headers are equal exactly when their names are equal and their
      values are equal; nothing equals null. */
  lemma EqualsIff(a: Header, b: Header)
    ensures a.Equals(Some(b)) <==> a.Name() == b.Name() && a.Value() == b.Value()
    ensures a.Equals(Some(b)) <==> a == b
    ensures !a.Equals(None)
  {
  }

  /** `equals` is an equivalence relation. */
  lemma EqualsIsEquivalence(a: Header, b: Header, c: Header)
    ensures a.Equals(Some(a))
    ensures a.Equals(Some(b)) <==> b.Equals(Some(a))
    ensures a.Equals(Some(b)) && b.Equals(Some(c)) ==> a.Equals(Some(c))
  {
  }

  /** Equal headers have equal hash codes, whatever the string hash. */
  lemma HashCodeAgreesWithEquals(a: Header, b: Header, stringHash: string -> Int32)
    requires a.Equals(Some(b))
    ensures a.HashCode(stringHash) == b.HashCode(stringHash)
  {
  }

  /** The hash is `31 * h(name) + h(value)` reduced to 32 bits, with a null
      field contributing 0. */
  lemma HashCodeFormula(h: Header, stringHash: string -> Int32)
    ensures var n := if h.name.Some? then stringHash(h.name.value) as int else 0;
            var v := if h.value.Some? then stringHash(h.value.value) as int else 0;
            (h.HashCode(stringHash) as int - (31 * n + v)) % 0x1_0000_0000 == 0
    ensures h.name.None? && h.value.None? ==> h.HashCode(stringHash) == 0
  {
  }
}
