/** Month-length tables shared by the Bengali and Hijri converters. */
module Tables {

  /** Sum of a sequence of month lengths. */
  function Total(s: seq<int>): int {
    if s == [] then 0 else Total(s[..|s| - 1]) + s[|s| - 1]
  }
}
