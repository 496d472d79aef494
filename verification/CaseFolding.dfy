/** Names as the databases compare them when they are not quoted: the case of ASCII letters does not
    count. */
module CaseFolding {

  function FoldChar(c: char): char {
    if 'A' <= c <= 'Z' then c + ('a' - 'A') else c
  }

  function Fold(s: string): string {
    if s == [] then [] else [FoldChar(s[0])] + Fold(s[1..])
  }

  /** One name to the database. */
  predicate SameName(a: string, b: string) {
    Fold(a) == Fold(b)
  }
}
