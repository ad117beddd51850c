/** Inputs in parts, for the two hashes. */
module HashWords {
  import opened BlockFormat

  function Concat(parts: seq<seq<byte>>): seq<byte> {
    if parts == [] then [] else Concat(parts[..|parts| - 1]) + parts[|parts| - 1]
  }
}
