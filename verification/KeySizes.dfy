/** How many bytes the refresh of the first directory key copies. */
module KeySizes {
  /**
   The bytes of a key field, the bytes by which sizeof (keyItem) exceeds its item number, and how many values a
   size_t has.
   */
  datatype KeySizes = KeySizes(field: nat, padding: nat, range: nat)
  {
    predicate Valid() {
      padding < range && field < range
    }

    /** The number of bytes to copy, computed without sign. */
    function Copied(): nat
      requires Valid()
    {
      (field - padding) % range
    }

    /** The copy stays inside the field. */
    predicate Inside()
      requires Valid()
    {
      Copied() <= field
    }
  }

  /** It does exactly for fields that are not shorter than the padding. */
  lemma CopyInside(z: KeySizes)
    requires z.Valid()
    ensures z.Inside() <==> z.padding <= z.field
    ensures z.padding <= z.field ==> z.Copied() == z.field - z.padding
  {
  }
}
