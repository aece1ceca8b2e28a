/** The PHP truthiness rules the controllers and services rely on. */
module Php {
  import opened Wrappers

  /** `empty` on a string: `""` and `"0"`. */
  predicate EmptyString(s: string) {
    s == "" || s == "0"
  }

  /** `isset($x) && ! empty($x)` on an optional string, which is also what `if ($x)` tests. */
  predicate Filled(o: Option<string>) {
    o.Some? && !EmptyString(o.value)
  }

  /** `column LIKE '%needle%'`: `needle` occurs in `hay`; the empty term occurs everywhere. */
  predicate Contains(hay: string, needle: string) {
    exists i :: 0 <= i <= |hay| && needle <= hay[i..]
  }

  /** A LIKE test on a nullable column: a null column never matches. */
  predicate ColumnContains(col: Option<string>, needle: string) {
    col.Some? && Contains(col.value, needle)
  }
}
