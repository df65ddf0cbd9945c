/** Bytes, byte strings and positions in them, shared by the JSON modules. */
module Octets {

  /** An `unsigned char`. */
  type Byte = b: int | 0 <= b < 256

  type Bytes = seq<Byte>

  datatype Option<+T> = None | Some(value: T)

  const INT_MAX: int := 0x7FFF_FFFF

  const NUL: Byte := 0
  const TAB: Byte := 9
  const NEWLINE: Byte := 10
  const RETURN: Byte := 13
  const SPACE: Byte := 32
  const QUOTE: Byte := 34
  const STAR: Byte := 42
  const PLUS: Byte := 43
  const COMMA: Byte := 44
  const MINUS: Byte := 45
  const POINT: Byte := 46
  const SLASH: Byte := 47
  const ZERO: Byte := 48
  const COLON: Byte := 58
  const OPEN_BRACKET: Byte := 91
  const BACKSLASH: Byte := 92
  const CLOSE_BRACKET: Byte := 93
  const LETTER_U: Byte := 117
  const OPEN_BRACE: Byte := 123
  const CLOSE_BRACE: Byte := 125

  const NULL_TEXT: Bytes := [110, 117, 108, 108]
  const TRUE_TEXT: Bytes := [116, 114, 117, 101]
  const FALSE_TEXT: Bytes := [102, 97, 108, 115, 101]

  predicate NoNul(s: Bytes) {
    forall i :: 0 <= i < |s| ==> s[i] != NUL
  }

  /** What is left to read of a C string; `End` stands at the terminator. */
  datatype Input = End | More(byte: Byte, rest: Input)

  function Length(s: Input): nat {
    if s.End? then 0 else 1 + Length(s.rest)
  }

  /** The text `u` in front of `k`. */
  function Prepend(u: Bytes, k: Input): Input {
    if u == [] then k else More(u[0], Prepend(u[1..], k))
  }

  function Drop(s: Input, n: nat): (r: Input)
    requires n <= Length(s)
    ensures Length(r) == Length(s) - n
  {
    if n == 0 then s else Drop(s.rest, n - 1)
  }

  lemma {:induction false} PrependLength(u: Bytes, k: Input)
    ensures Length(Prepend(u, k)) == |u| + Length(k)
  {
    if u != [] {
      PrependLength(u[1..], k);
    }
  }

  lemma {:induction false} PrependConcat(a: Bytes, b: Bytes, k: Input)
    ensures Prepend(a + b, k) == Prepend(a, Prepend(b, k))
  {
    if a == [] {
      assert a + b == b;
    } else {
      PrependConcat(a[1..], b, k);
      assert (a + b)[1..] == a[1..] + b;
    }
  }

  lemma {:induction false} DropPrepend(u: Bytes, k: Input)
    ensures |u| <= Length(Prepend(u, k)) && Drop(Prepend(u, k), |u|) == k
  {
    PrependLength(u, k);
    if u != [] {
      DropPrepend(u[1..], k);
    }
  }
}
