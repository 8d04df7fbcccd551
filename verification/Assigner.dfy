/** How tokens are filled: from the range of a forward iterator at the end, or character by
    character while a single-pass input iterator moves on.
  */
module Assigner {

  datatype Category = InputIterator | ForwardIterator

  function Clear(k: Category, tok: string): (t: string) {
    if k.InputIterator? then "" else tok
  }

  function PlusEqual(k: Category, tok: string, ch: char): (t: string) {
    if k.InputIterator? then tok + [ch] else tok
  }

  function Assign(k: Category, range: string, tok: string): (t: string) {
    if k.InputIterator? then tok else range
  }

  /** The token collected so far is the range passed so far, once it has been assigned. */
  predicate Collected(k: Category, tok: string, range: string) {
    k.InputIterator? ==> tok == range
  }

  lemma CollectNext(k: Category, tok: string, input: string, start: nat, next: nat)
    requires start <= next < |input| && Collected(k, tok, input[start..next])
    ensures Collected(k, PlusEqual(k, tok, input[next]), input[start..next + 1])
  {
    assert input[start..next + 1] == input[start..next] + [input[next]];
  }

  lemma CutAt(input: string, start: nat, next: nat)
    requires start <= next <= |input|
    ensures input[start..][..next - start] == input[start..next]
    ensures input[start..][next - start..] == input[next..]
  {
  }

  /** The characters of all tokens together. */
  function Flatten(tokens: seq<string>): (s: string)
    decreases |tokens|
  {
    if tokens == [] then "" else tokens[0] + Flatten(tokens[1..])
  }
}
