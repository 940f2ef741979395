/** Small general-purpose definitions shared by the numeral, timestamp and
    block code: an optional value for readers that may fail, and the suffix
    test `str.endswith`. */
module Wrappers {

  datatype Option<T> = None | Some(value: T)

  /** `s.endswith(tail)`: `tail` is a suffix of `s`. */
  predicate EndsWith(s: string, tail: string) {
    |s| >= |tail| && s[|s| - |tail|..] == tail
  }

  /** A string ending with `tail` still ends with it after anything is put
      in front. */
  lemma EndsWithAppend(d: string, last: string, tail: string)
    requires EndsWith(last, tail)
    ensures EndsWith(d + last, tail)
  {
    assert (d + last)[|d + last| - |tail|..] == last[|last| - |tail|..];
  }
}
