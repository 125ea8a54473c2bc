/** String predicates shared by the browser and the command-line front ends.
    Strings are sequences of characters; no case folding happens here. */
module Text {

  /** `s` begins with `prefix` (what an anchored `^prefix` test checks). */
  predicate StartsWith(s: string, prefix: string) {
    |prefix| <= |s| && s[..|prefix|] == prefix
  }

  /** `s` ends with `suffix` (what an anchored `suffix$` test checks). */
  predicate EndsWith(s: string, suffix: string) {
    |suffix| <= |s| && s[|s| - |suffix|..] == suffix
  }
}
