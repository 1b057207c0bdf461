/** Data that arrives in pieces: each read takes the next piece, or as much of it as there is room for. */
module Pieces {
  function Join<T>(pieces: seq<seq<T>>): seq<T> {
    if pieces == [] then [] else pieces[0] + Join(pieces[1..])
  }

  predicate NoEmptyPiece<T>(pieces: seq<seq<T>>) {
    forall i :: 0 <= i < |pieces| ==> pieces[i] != []
  }

  /** What one read delivers; nothing when no piece is left. */
  function FirstRead<T>(pieces: seq<seq<T>>, room: nat): (data: seq<T>)
    ensures |data| <= room
  {
    if pieces == [] then [] else if |pieces[0]| <= room then pieces[0] else pieces[0][..room]
  }

  /** The pieces after that read. */
  function AfterRead<T>(pieces: seq<seq<T>>, room: nat): (rest: seq<seq<T>>)
    ensures Join(pieces) == FirstRead(pieces, room) + Join(rest)
    ensures NoEmptyPiece(pieces) ==> NoEmptyPiece(rest)
  {
    if pieces == [] then []
    else if |pieces[0]| <= room then pieces[1..]
    else
      assert pieces[0] == pieces[0][..room] + pieces[0][room..];
      var rest := [pieces[0][room..]] + pieces[1..];
      assert rest[1..] == pieces[1..];
      rest
  }

  lemma {:induction false} JoinAppend<T>(a: seq<seq<T>>, b: seq<seq<T>>)
    ensures Join(a + b) == Join(a) + Join(b)
  {
    if a == [] {
      assert a + b == b;
    } else {
      assert (a + b)[1..] == a[1..] + b;
      JoinAppend(a[1..], b);
    }
  }
}
