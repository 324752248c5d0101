/** The key alphabet of the trie: the 26 lower-case letters 'a'..'z' and the
    mapping from a letter to the child slot that stands for it. */
module Alphabet {

  /** Number of child slots in every node. */
  const AlphabetSize: int := 26

  predicate IsLower(c: char) {
    'a' <= c <= 'z'
  }

  /** A key the trie can store: every character is a lower-case letter.
      Any other character would index outside the 26 child slots. */
  predicate ValidKey(key: string) {
    forall i :: 0 <= i < |key| ==> IsLower(key[i])
  }

  /** The letter that child slot `i` stands for. */
  function IndexToChar(i: int): (c: char)
    requires 0 <= i < AlphabetSize
    ensures IsLower(c)
  {
    ('a' as int + i) as char
  }

  /** CHAR_TO_INDEX: the child slot of a lower-case letter, its distance from 'a'. */
  function CharToIndex(c: char): (i: int)
    requires IsLower(c)
    ensures 0 <= i < AlphabetSize
    ensures IndexToChar(i) == c
  {
    c as int - 'a' as int
  }

  /** Slots and letters are in one-to-one correspondence. */
  lemma IndexRoundTrip(i: int)
    requires 0 <= i < AlphabetSize
    ensures CharToIndex(IndexToChar(i)) == i
  {
  }

  lemma IndexToCharInjective(i: int, j: int)
    requires 0 <= i < AlphabetSize && 0 <= j < AlphabetSize
    ensures IndexToChar(i) == IndexToChar(j) <==> i == j
  {
  }
}
