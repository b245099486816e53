/** The transform's context: the forty 32-bit round keys and the 1024-byte
    substitution table, as the context record declares them.  The key
    schedule and the table initialisation are not part of this model, so a
    context is any pair of tables of the declared sizes. */
module Tables {

  datatype Context = Context(keys: seq<bv32>, sbox: seq<bv8>)
  {
    /** The fixed array sizes of the record: `keys[40]`, `sbox[256 * 4]`. */
    predicate Valid() {
      |keys| == 40 && |sbox| == 1024
    }
  }
}
