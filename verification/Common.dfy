/**
 What several models share: optional values, white space, and joining pieces.
 */
module Common {
  datatype Option<+T> = None | Some(value: T)

  /** isspace() in the C locale. */
  predicate Space(c: char) {
    c == ' ' || '\t' <= c <= '\r'
  }

  /** White space is the space, and horizontal tab, newline, vertical tab, form feed and carriage return. */
  lemma SpaceIs(c: char)
    ensures Space(c) <==> c as int in {0x20, 0x09, 0x0a, 0x0b, 0x0c, 0x0d}
  {
  }

  /** Text from its first character that is not white space. */
  function TrimLeft(s: string): (r: string)
    ensures r != "" ==> !Space(r[0])
    ensures |r| <= |s| && r == s[|s| - |r|..]
  {
    if s != "" && Space(s[0]) then TrimLeft(s[1..]) else s
  }

  function Concat<B>(pieces: seq<seq<B>>): (r: seq<B>) {
    if pieces == [] then [] else Concat(pieces[..|pieces| - 1]) + pieces[|pieces| - 1]
  }
}
