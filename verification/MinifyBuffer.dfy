/** `cJSON_Minify` as it runs: one pass over a C string that is rewritten in place. */
module MinifyBuffers {
  import opened Octets
  import opened Minifying
  import opened ParseBuffers
  import Parsing
  import Strings

  /** The bytes of an input. */
  function Content(s: Input): Bytes {
    if s.End? then [] else [s.byte] + Content(s.rest)
  }

  lemma {:induction false} ContentPrepend(u: Bytes)
    ensures Content(Prepend(u, End)) == u
  {
    if u != [] {
      ContentPrepend(u[1..]);
    }
  }

  lemma KeepKeep(u: Bytes, v: Bytes, r: Option<Input>)
    ensures Keep(u, Keep(v, r)) == Keep(u + v, r)
  {
    if r.Some? {
      PrependConcat(u, v, r.value);
    }
  }

  /** What is written for the rest of a string literal and all that follows it. */
  function InString(s: Input): Option<Input> {
    match Strings.Scan(s)
    case Unclosed => None
    case Scanned(body, rest) => Keep(body + [QUOTE], Minify(rest))
  }

  lemma InStringByte(s: Input)
    requires s.More?
    ensures s.byte == QUOTE ==> InString(s) == Keep([QUOTE], Minify(s.rest))
    ensures s.byte != QUOTE && s.byte != BACKSLASH ==> InString(s) == Keep([s.byte], InString(s.rest))
  {
    if s.byte == QUOTE {
      assert [] + [QUOTE] == [QUOTE];
    } else if s.byte != BACKSLASH && Strings.Scan(s.rest).Scanned? {
      var body := Strings.Scan(s.rest).body;
      KeepKeep([s.byte], body + [QUOTE], Minify(Strings.Scan(s.rest).rest));
      assert [s.byte] + (body + [QUOTE]) == [s.byte] + body + [QUOTE];
    }
  }

  lemma InStringEscape(s: Input)
    requires s.More? && s.byte == BACKSLASH
    ensures s.rest.End? ==> InString(s).None?
    ensures s.rest.More? ==> InString(s) == Keep([BACKSLASH], Keep([s.rest.byte], InString(s.rest.rest)))
  {
    if s.rest.More? && Strings.Scan(s.rest.rest).Scanned? {
      var next := Strings.Scan(s.rest.rest);
      var b, body := s.rest.byte, next.body;
      KeepKeep([BACKSLASH], [b] + (body + [QUOTE]), Minify(next.rest));
      KeepKeep([b], body + [QUOTE], Minify(next.rest));
      assert [BACKSLASH] + ([b] + (body + [QUOTE])) == [BACKSLASH, b] + body + [QUOTE];
    }
  }

  lemma OpenString(s: Input)
    requires s.More? && s.byte == QUOTE
    ensures Minify(s) == Keep([QUOTE], InString(s.rest))
  {
    match Strings.Scan(s.rest)
    case Unclosed =>
    case Scanned(body, rest) =>
      KeepKeep([QUOTE], body + [QUOTE], Minify(rest));
      assert [QUOTE] + (body + [QUOTE]) == [QUOTE] + body + [QUOTE];
  }

  /** Between two steps: the first `into` bytes are written, those of `c` from `read` on are still
      there, and what is written followed by `owed` makes up the whole `goal`. */
  ghost predicate Between(a: array<Byte>, c: Bytes, into: nat, read: nat, owed: Option<Input>, goal: Option<Input>)
    reads a
  {
    && into <= read < |c| <= a.Length && Terminated(c)
    && (forall k :: read <= k < |c| ==> a[k] == c[k])
    && Keep(a[..into], owed) == goal
  }

  /** The same as long as the position is inside of the text, which it is unless there is no goal. */
  ghost predicate Standing(a: array<Byte>, c: Bytes, into: nat, read: nat, owed: Option<Input>, goal: Option<Input>)
    reads a
  {
    if read < |c| then Between(a, c, into, read, owed, goal) else goal.None?
  }

  /** `*into++ = *json++`, which at the terminator leaves the text. */
  method Move(a: array<Byte>, ghost c: Bytes, into: nat, read: nat, ghost owed: Option<Input>,
              ghost goal: Option<Input>)
      returns (into': nat, read': nat)
    requires read < |c| && Between(a, c, into, read, Keep([c[read]], owed), goal)
    requires read + 1 == |c| ==> owed.None?
    modifies a
    ensures into' == into + 1 && read' == read + 1 && Standing(a, c, into', read', owed, goal)
    ensures a[|c|..] == old(a[|c|..])
  {
    ghost var kept := a[..into];
    a[into] := a[read];
    into', read' := into + 1, read + 1;
    assert a[..into'] == kept + [c[read]];
    KeepKeep(kept, [c[read]], owed);
  }

  /** A byte of a string literal, or a backslash and the byte behind it. */
  method CopyUnit(a: array<Byte>, ghost c: Bytes, into: nat, read: nat, ghost goal: Option<Input>)
      returns (into': nat, read': nat)
    requires Between(a, c, into, read, InString(Rest(c, read)), goal) && a[read] != NUL && a[read] != QUOTE
    modifies a
    ensures read < read' && Standing(a, c, into', read', InString(Rest(c, read')), goal)
    ensures a[|c|..] == old(a[|c|..])
  {
    ghost var s := Rest(c, read);
    into', read' := into, read;
    if a[read'] == BACKSLASH {
      InStringEscape(s);
      assert s.rest == Rest(c, read + 1);
      ghost var owed := if s.rest.More? then InString(s.rest.rest) else None;
      into', read' := Move(a, c, into', read', Keep([c[read + 1]], owed), goal);
      into', read' := Move(a, c, into', read', owed, goal);
    } else {
      InStringByte(s);
      into', read' := Move(a, c, into', read', InString(s.rest), goal);
    }
  }

  /** The string literal behind its opening quote. Without a closing quote the position leaves the text. */
  method CopyString(a: array<Byte>, size: nat, ghost c: Bytes, into: nat, read: nat, ghost goal: Option<Input>)
      returns (into': nat, read': nat)
    requires size == |c| && Between(a, c, into, read, InString(Rest(c, read)), goal)
    modifies a
    ensures read < read' && Standing(a, c, into', read', Minify(Rest(c, read')), goal)
    ensures a[|c|..] == old(a[|c|..])
  {
    into', read' := into, read;
    while read' < size && a[read'] != NUL && a[read'] != QUOTE
      invariant read <= read' && Standing(a, c, into', read', InString(Rest(c, read')), goal)
      invariant a[|c|..] == old(a[|c|..])
      decreases |c| - read'
    {
      into', read' := CopyUnit(a, c, into', read', goal);
    }
    if read' < size {
      ghost var s := Rest(c, read');
      if s.More? {
        InStringByte(s);
      }
      into', read' := Move(a, c, into', read', if s.More? then Minify(s.rest) else None, goal);
    }
  }

  /** The rest of the line, whose end stays. */
  method SkipLineComment(a: array<Byte>, ghost c: Bytes, read: nat) returns (read': nat)
    requires read < |c| <= a.Length && Terminated(c) && forall k :: read <= k < |c| ==> a[k] == c[k]
    ensures read <= read' < |c| && Rest(c, read') == SkipLine(Rest(c, read))
  {
    read' := read;
    while a[read'] != NUL && a[read'] != NEWLINE
      invariant read <= read' < |c| && SkipLine(Rest(c, read')) == SkipLine(Rest(c, read))
      decreases |c| - read'
    {
      read' := read' + 1;
    }
  }

  /** The rest behind the next closing mark, or behind the terminator when there is none. */
  method SkipBlockComment(a: array<Byte>, ghost c: Bytes, read: nat) returns (read': nat)
    requires read < |c| <= a.Length && Terminated(c) && forall k :: read <= k < |c| ==> a[k] == c[k]
    ensures read < read' && (read' < |c| <==> SkipComment(Rest(c, read)).Some?)
    ensures read' < |c| ==> Some(Rest(c, read')) == SkipComment(Rest(c, read))
  {
    read' := read;
    while a[read'] != NUL && !(a[read'] == STAR && a[read' + 1] == SLASH)
      invariant read <= read' < |c| && SkipComment(Rest(c, read')) == SkipComment(Rest(c, read))
      decreases |c| - read'
    {
      read' := read' + 1;
    }
    read' := read' + 2;
  }

  /** One round of the loop. */
  method MinifyRound(a: array<Byte>, size: nat, ghost c: Bytes, into: nat, read: nat, ghost goal: Option<Input>)
      returns (into': nat, read': nat)
    requires size == |c| && read + 1 < |c| && Between(a, c, into, read, Minify(Rest(c, read)), goal)
    modifies a
    ensures read < read' && Standing(a, c, into', read', Minify(Rest(c, read')), goal)
    ensures a[|c|..] == old(a[|c|..])
  {
    ghost var s := Rest(c, read);
    into', read' := into, read;
    if IsDropped(a[read]) {
      read' := read + 1;
    } else if a[read] == SLASH && a[read + 1] == SLASH {
      read' := SkipLineComment(a, c, read);
    } else if a[read] == SLASH && a[read + 1] == STAR {
      read' := SkipBlockComment(a, c, read);
    } else if a[read] == QUOTE {
      OpenString(s);
      into', read' := Move(a, c, into, read, InString(s.rest), goal);
      into', read' := CopyString(a, size, c, into', read', goal);
    } else {
      assert s.byte == c[read] && s.rest == Rest(c, read + 1);
      assert Minify(s) == Keep([s.byte], Minify(s.rest));
      into', read' := Move(a, c, into, read, Minify(s.rest), goal);
    }
  }

  /** `cJSON_Minify` on the C string `text`, whose bytes and terminator are the first `size` of the array.
      The code does not know that size: where it would read on behind the terminator the model stops and
      says that it did not stay `inside`. It stays inside exactly when every string literal and every
      block comment is closed. Then the array starts with what `Minify` defines and a terminator. In no
      case is a byte written behind the terminator, or ahead of where it has been read. */
  method MinifyInPlace(a: array<Byte>, size: nat, ghost text: Bytes) returns (inside: bool)
    requires NoNul(text) && size == |text| + 1 <= a.Length && a[..size] == text + [NUL]
    modifies a
    ensures inside <==> Closed(text)
    ensures inside <==> Minify(Prepend(text, End)).Some?
    ensures inside ==> var out := Content(Minify(Prepend(text, End)).value);
                       |out| <= |text| && a[..|out| + 1] == out + [NUL]
    ensures a[size..] == old(a[size..])
  {
    ghost var c, goal := text + [NUL], Minify(Prepend(text, End));
    ClosedIff(Prepend(text, End));
    RestOfText(text, 0);
    assert text[0..] == text;
    assert forall k :: 0 <= k < |c| ==> a[k] == a[..size][k] == c[k];
    var into: nat, read: nat := 0, 0;
    while read < size && a[read] != NUL
      invariant Standing(a, c, into, read, Minify(Rest(c, read)), goal)
      invariant a[|c|..] == old(a[|c|..])
      decreases |c| - read
    {
      into, read := MinifyRound(a, size, c, into, read, goal);
    }
    inside := read < size;
    if inside {
      ghost var out := a[..into];
      ContentPrepend(out);
      a[into] := NUL;
      assert a[..into + 1] == out + [NUL];
    }
  }
}
