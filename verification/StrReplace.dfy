/** `strReplace`: two passes over a C string, the first one to size the result. */
module StrReplacing {
  import opened Octets

  ghost predicate OccursAt(s: Bytes, rep: Bytes, at: nat) {
    at + |rep| <= |s| && s[at..at + |rep|] == rep
  }

  lemma OccursBehind(s: Bytes, rep: Bytes, k: nat)
    requires s != []
    ensures OccursAt(s, rep, k + 1) <==> OccursAt(s[1..], rep, k)
  {
    if k + 1 + |rep| <= |s| {
      assert s[1..][k..k + |rep|] == s[k + 1..k + 1 + |rep|];
    }
  }

  /** `r` is where `rep` occurs first. */
  ghost predicate IsFirst(s: Bytes, rep: Bytes, r: Option<nat>) {
    match r
    case None => forall k: nat :: !OccursAt(s, rep, k)
    case Some(at) => OccursAt(s, rep, at) && forall k: nat :: OccursAt(s, rep, k) ==> at <= k
  }

  lemma FirstBehind(s: Bytes, rep: Bytes, r: Option<nat>)
    requires s != [] && !OccursAt(s, rep, 0) && IsFirst(s[1..], rep, r)
    ensures IsFirst(s, rep, if r.Some? then Some(r.value + 1) else None)
  {
    forall k: nat | OccursAt(s, rep, k)
      ensures r.Some? && r.value + 1 <= k
    {
      OccursBehind(s, rep, k - 1);
    }
    if r.Some? {
      OccursBehind(s, rep, r.value);
    }
  }

  /** `strstr`: where `rep` occurs first. */
  function Find(s: Bytes, rep: Bytes): (r: Option<nat>)
    ensures IsFirst(s, rep, r)
    decreases |s|
  {
    if |rep| <= |s| && s[..|rep|] == rep then Some(0)
    else if s == [] then None
    else
      var r := Find(s[1..], rep);
      FirstBehind(s, rep, r);
      if r.Some? then Some(r.value + 1) else None
  }

  /** What is left of `s` between the replaced occurrences of `rep`. */
  function Pieces(s: Bytes, rep: Bytes): (r: seq<Bytes>)
    requires rep != []
    ensures r != []
    decreases |s|
  {
    match Find(s, rep)
    case None => [s]
    case Some(k) => [s[..k]] + Pieces(s[k + |rep|..], rep)
  }

  function Join(pieces: seq<Bytes>, glue: Bytes): Bytes
    requires pieces != []
  {
    if |pieces| == 1 then pieces[0] else pieces[0] + glue + Join(pieces[1..], glue)
  }

  /** Each piece but the last one ends where `rep` occurs first in the rest, and in the last one it does not
      occur. */
  ghost predicate CutLeftmost(pieces: seq<Bytes>, rep: Bytes)
    requires pieces != []
  {
    if |pieces| == 1 then Find(pieces[0], rep).None?
    else Find(Join(pieces, rep), rep) == Some(|pieces[0]|) && CutLeftmost(pieces[1..], rep)
  }

  lemma NextPiece(s: Bytes, rep: Bytes, with: Bytes)
    requires rep != [] && Find(s, rep).Some?
    ensures var k := Find(s, rep).value;
            Replaced(s, rep, with) == s[..k] + with + Replaced(s[k + |rep|..], rep, with)
  {
    var k := Find(s, rep).value;
    assert Pieces(s, rep)[1..] == Pieces(s[k + |rep|..], rep);
  }

  lemma CutAt(s: Bytes, rep: Bytes, k: nat)
    requires OccursAt(s, rep, k)
    ensures s[..k] + rep + s[k + |rep|..] == s
  {
    assert s == s[..k] + s[k..k + |rep|] + s[k + |rep|..];
  }

  /** `Pieces` cuts `s` at the leftmost occurrences, each behind the one before it, and no other cut does. */
  lemma {:induction false} PiecesCut(s: Bytes, rep: Bytes)
    requires rep != []
    ensures Replaced(s, rep, rep) == s && CutLeftmost(Pieces(s, rep), rep)
    decreases |s|
  {
    var at := Find(s, rep);
    if at.Some? {
      var k, rest := at.value, s[at.value + |rep|..];
      PiecesCut(rest, rep);
      assert s[..k] + rep + rest == s by { CutAt(s, rep, k); }
      CutNext(s, rep, s[..k], Pieces(rest, rep));
    }
  }

  /** One more piece in front. */
  lemma CutNext(s: Bytes, rep: Bytes, piece: Bytes, more: seq<Bytes>)
    requires more != [] && CutLeftmost(more, rep) && piece + rep + Join(more, rep) == s
    requires Find(s, rep) == Some(|piece|)
    ensures CutLeftmost([piece] + more, rep) && Join([piece] + more, rep) == s
  {
    assert ([piece] + more)[1..] == more;
  }

  lemma CutPiece(piece: Bytes, rep: Bytes, rest: Bytes)
    ensures (piece + rep + rest)[..|piece|] == piece && (piece + rep + rest)[|piece| + |rep|..] == rest
  {
  }

  lemma {:induction false} PiecesOnly(pieces: seq<Bytes>, rep: Bytes)
    requires rep != [] && pieces != [] && CutLeftmost(pieces, rep)
    ensures Pieces(Join(pieces, rep), rep) == pieces
  {
    if |pieces| > 1 {
      PiecesOnly(pieces[1..], rep);
      FirstPiece(Join(pieces, rep), rep, pieces[0], Join(pieces[1..], rep));
      assert [pieces[0]] + pieces[1..] == pieces;
    }
  }

  lemma FirstPiece(s: Bytes, rep: Bytes, piece: Bytes, rest: Bytes)
    requires rep != [] && s == piece + rep + rest && Find(s, rep) == Some(|piece|)
    ensures Pieces(s, rep) == [piece] + Pieces(rest, rep)
  {
    assert s[..|piece|] == piece && s[|piece| + |rep|..] == rest by { CutPiece(piece, rep, rest); }
  }

  /** How many occurrences the first pass counts. */
  function Count(s: Bytes, rep: Bytes): (n: nat)
    requires rep != []
    ensures n == |Pieces(s, rep)| - 1
    decreases |s|
  {
    match Find(s, rep)
    case None => 0
    case Some(k) => 1 + Count(s[k + |rep|..], rep)
  }

  /** The result: the pieces with `with` between them. */
  function Replaced(s: Bytes, rep: Bytes, with: Bytes): Bytes
    requires rep != []
  {
    Join(Pieces(s, rep), with)
  }

  lemma {:induction false} JoinLength(pieces: seq<Bytes>, a: Bytes, b: Bytes)
    requires pieces != []
    ensures |Join(pieces, b)| == |Join(pieces, a)| + (|b| - |a|) * (|pieces| - 1)
  {
    if |pieces| > 1 {
      JoinLength(pieces[1..], a, b);
    }
  }

  /** The first pass sizes the result exactly. */
  lemma ReplacedLength(s: Bytes, rep: Bytes, with: Bytes)
    requires rep != []
    ensures |Replaced(s, rep, with)| == |s| + (|with| - |rep|) * Count(s, rep)
  {
    PiecesCut(s, rep);
    JoinLength(Pieces(s, rep), rep, with);
  }

  /** `strncpy` and `strcpy` */
  method Copy(a: array<Byte>, at: nat, piece: Bytes)
    requires at + |piece| <= a.Length
    modifies a
    ensures a[..at + |piece|] == old(a[..at]) + piece
  {
    for i := 0 to |piece|
      invariant a[..at + i] == old(a[..at]) + piece[..i]
    {
      a[at + i] := piece[i];
      assert a[..at + i + 1] == a[..at + i] + [piece[i]];
      assert piece[..i + 1] == piece[..i] + [piece[i]];
    }
    assert piece[..|piece|] == piece;
  }

  /** The first pass. */
  method CountOccurrences(orig: Bytes, rep: Bytes) returns (count: nat)
    requires rep != []
    ensures count == Count(orig, rep)
  {
    count := 0;
    var ins := orig;
    var tmp := Find(ins, rep);
    while tmp.Some?
      invariant tmp == Find(ins, rep) && Count(orig, rep) == count + Count(ins, rep)
      decreases |ins|
    {
      ins := ins[tmp.value + |rep|..];
      count := count + 1;
      tmp := Find(ins, rep);
    }
  }

  /** The second pass: it finds the occurrences the first one counted, and what it writes and the terminator
      fill the result to its last byte. */
  method Fill(result: array<Byte>, orig: Bytes, rep: Bytes, with: Bytes, count: nat)
    requires rep != [] && count == Count(orig, rep)
    requires result.Length == |Replaced(orig, rep, with)| + 1
    modifies result
    ensures result[..] == Replaced(orig, rep, with) + [NUL]
  {
    var left, rest, tmp := count, orig, 0;
    ghost var owed := Replaced(orig, rep, with);
    ghost var goal := owed;
    assert result[..tmp] + owed == goal;
    while left > 0
      invariant 0 <= tmp < result.Length && left == Count(rest, rep) && owed == Replaced(rest, rep, with)
      invariant tmp + |owed| == |goal| && result[..tmp] + owed == goal
      decreases left
    {
      ghost var before := result[..tmp];
      var front := Find(rest, rep).value;
      NextPiece(rest, rep, with);
      owed := Replaced(rest[front + |rep|..], rep, with);
      Assoc(before, rest[..front], with, owed);
      tmp := FillPiece(result, tmp, rest[..front], with);
      rest := rest[front + |rep|..];
      left := left - 1;
    }
    assert owed == rest;
    FillLast(result, tmp, rest);
  }

  /** The end of the second pass. */
  method FillLast(result: array<Byte>, at: nat, rest: Bytes)
    requires at + |rest| + 1 == result.Length
    modifies result
    ensures result[..] == old(result[..at]) + rest + [NUL]
  {
    ghost var before := result[..at];
    Copy(result, at, rest + [NUL]);
    assert result[..] == result[..at + |rest| + 1];
    assert before + (rest + [NUL]) == before + rest + [NUL];
  }

  /** One round of the second pass. */
  method FillPiece(result: array<Byte>, at: nat, piece: Bytes, with: Bytes) returns (tmp: nat)
    requires at + |piece| + |with| < result.Length
    modifies result
    ensures tmp == at + |piece| + |with| && result[..tmp] == old(result[..at]) + piece + with
  {
    ghost var before := result[..at];
    Copy(result, at, piece);
    tmp := at + |piece|;
    Copy(result, tmp, with + [NUL]);
    Overwritten(result[..], tmp + |with|, before + piece, with);
    assert result[..][..tmp + |with|] == result[..tmp + |with|];
    tmp := tmp + |with|;
  }

  lemma Assoc(a: Bytes, b: Bytes, c: Bytes, d: Bytes)
    ensures a + (b + c + d) == a + b + c + d
  {
  }

  /** The terminator that `strcpy` writes is not part of the text so far. */
  lemma Overwritten(b: Bytes, at: nat, done: Bytes, piece: Bytes)
    requires at < |b| && at == |done| + |piece| && b[..at + 1] == done + (piece + [NUL])
    ensures b[..at] == done + piece
  {
    assert b[..at] == b[..at + 1][..at];
    assert (done + (piece + [NUL]))[..at] == done + piece;
  }

  /** `strReplace`; a missing `with` is the empty string. */
  method StrReplace(orig: Option<Bytes>, rep: Option<Bytes>, with: Option<Bytes>)
      returns (result: array?<Byte>, ghost exhausted: bool)
    ensures result == null <==> orig.None? || rep.None? || rep.value == [] || exhausted
    ensures result != null ==>
      result[..] == Replaced(orig.value, rep.value, if with.Some? then with.value else []) + [NUL]
  {
    if orig.None? || rep.None? {
      return null, false;
    }
    var lenRep := |rep.value|;
    if lenRep == 0 {
      return null, false;
    }
    var w := if with.Some? then with.value else [];
    var count := CountOccurrences(orig.value, rep.value);
    ReplacedLength(orig.value, rep.value, w);
    var failed: bool := *;
    if failed {
      return null, true;
    }
    var a := new Byte[|orig.value| + (|w| - lenRep) * count + 1];
    Fill(a, orig.value, rep.value, w, count);
    return a, false;
  }
}
