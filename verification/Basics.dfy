/** Definitions that several modules use. */
module Basics {

  datatype Option<+T> = None | Some(value: T) {
    function GetOr(other: T): T { if Some? then value else other }
  }

  lemma Assoc<T>(a: seq<T>, b: seq<T>, c: seq<T>)
    ensures a + b + c == a + (b + c)
  {
  }

  /** The pieces joined into one. */
  function Flat<T>(pieces: seq<seq<T>>): seq<T> {
    if pieces == [] then [] else pieces[0] + Flat(pieces[1..])
  }

  lemma {:induction false} FlatConcat<T>(a: seq<seq<T>>, b: seq<seq<T>>)
    ensures Flat(a + b) == Flat(a) + Flat(b)
    decreases |a|
  {
    if a == [] {
      assert a + b == b;
    } else {
      assert (a + b)[1..] == a[1..] + b && (a + b)[0] == a[0];
      FlatConcat(a[1..], b);
      Assoc(a[0], Flat(a[1..]), Flat(b));
    }
  }

  lemma FlatOne<T>(piece: seq<T>)
    ensures Flat([piece]) == piece
  {
    assert [piece][1..] == [];
    assert piece + [] == piece;
  }

  lemma TakeOneMore<T>(s: seq<T>, j: nat)
    requires j < |s|
    ensures s[..j + 1] == s[..j] + [s[j]]
  {
  }

  lemma TakeDrop<T>(s: seq<T>, j: nat)
    requires j <= |s|
    ensures s == s[..j] + s[j..]
  {
  }

  /** The j-th piece comes after those before it, and before the rest. */
  lemma FlatParts<T>(pieces: seq<seq<T>>, j: nat)
    requires j < |pieces|
    ensures Flat(pieces[..j + 1]) == Flat(pieces[..j]) + pieces[j]
    ensures Flat(pieces) == Flat(pieces[..j]) + pieces[j] + Flat(pieces[j + 1..])
  {
    hide Flat;
    TakeOneMore(pieces, j);
    FlatConcat(pieces[..j], [pieces[j]]);
    FlatOne(pieces[j]);
    TakeDrop(pieces, j + 1);
    FlatConcat(pieces[..j + 1], pieces[j + 1..]);
  }
}
