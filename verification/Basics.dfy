// Shared value types: octets, byte strings, and the outcome datatypes that stand for Go's
// (value, error) returns.
module Basics {

  newtype byte = x: int | 0 <= x < 0x100

  type Bytes = seq<byte>

  const NEWLINE: byte := 10
  const SPACE: byte := 32
  const CARRIAGE_RETURN: byte := 13

  datatype Option<+T> = None | Some(value: T)

  datatype Result<+T, +E> = Ok(value: T) | Err(error: E)

  /** The concatenation of a sequence of sequences. */
  ghost function Flatten<T>(parts: seq<seq<T>>): seq<T>
  {
    if parts == [] then [] else parts[0] + Flatten(parts[1..])
  }

  lemma {:induction false} FlattenAppend<T>(parts: seq<seq<T>>, more: seq<seq<T>>)
    ensures Flatten(parts + more) == Flatten(parts) + Flatten(more)
  {
    if parts == [] {
      assert parts + more == more;
    } else {
      assert (parts + more)[1..] == parts[1..] + more;
      FlattenAppend(parts[1..], more);
      assert Flatten(parts + more) == parts[0] + (Flatten(parts[1..]) + Flatten(more));
    }
  }

  lemma FlattenOne<T>(part: seq<T>)
    ensures Flatten([part]) == part
  {
  }

  predicate OccursAt<T(==)>(text: seq<T>, pattern: seq<T>, i: nat) {
    i + |pattern| <= |text| && text[i..i + |pattern|] == pattern
  }

  /** strings.Contains and bytes.Contains. */
  predicate Contains<T(==)>(text: seq<T>, pattern: seq<T>) {
    exists i: nat :: i <= |text| && OccursAt(text, pattern, i)
  }

  lemma SubsetSize<T>(small: set<T>, big: set<T>)
    requires small <= big
    ensures |small| <= |big|
  {
    assert big == small + (big - small);
  }
}
