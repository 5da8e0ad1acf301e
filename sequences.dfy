/** Sequence predicates shared by the reader and the upload list. */
module Sequences {

  /** `s.endsWith(suffix)`, for strings and for byte strings alike. */
  predicate EndsWith<T(==)>(s: seq<T>, suffix: seq<T>)
  {
    |suffix| <= |s| && s[|s| - |suffix| ..] == suffix
  }
}
