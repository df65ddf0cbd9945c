/** cJSON's printer as it runs: a buffer that grows, or a fixed one that does not, proved against
    the text module `Rendering` defines. */
module PrintBuffers {
  import opened Octets
  import opened Json
  import opened Rendering
  import Numbers
  import Strings

  /** How many bytes growing copies: `realloc` all, the code for hooks without it those up to the offset. */
  function Kept(reallocates: bool, length: nat, offset: nat): nat {
    if reallocates then length else offset + 1
  }

  /** Growing copies only bytes there are exactly when `realloc` does it or the offset is inside of the
      buffer. An empty buffer without `realloc` is the case in which it does not. */
  lemma KeptFits(reallocates: bool, length: nat, offset: nat)
    ensures Kept(reallocates, length, offset) <= length <==> reallocates || offset < length
    ensures Kept(false, 0, offset) > 0
  {
  }

  class PrintBuffer {
    var buffer: array?<Byte>
    var length: nat
    var offset: nat
    var depth: nat
    const noalloc: bool
    const format: bool
    /** Whether the allocation hooks offer `realloc`. */
    const reallocates: bool
    /** An allocation has failed. */
    ghost var exhausted: bool

    /** What `ensure` demands of a buffer, if there is one: growing must not copy bytes it does not have. */
    ghost predicate Sized()
      reads this
    {
      buffer != null ==> length <= buffer.Length && length <= INT_MAX && (length > 0 || reallocates || noalloc)
    }

    /** A buffer to go on printing into. */
    ghost predicate Ready()
      reads this
    {
      && buffer != null && length <= buffer.Length && length <= INT_MAX
      && (if length > 0 then offset < length else offset == 0 && (reallocates || noalloc))
    }

    /** The most bytes the buffer can ever hold. */
    ghost function Capacity(): nat
      reads this
    {
      if noalloc then length else INT_MAX
    }

    constructor (buffer: array<Byte>, length: nat, noalloc: bool, format: bool, reallocates: bool)
      requires length <= buffer.Length && length <= INT_MAX && (length > 0 || reallocates || noalloc)
      ensures Ready() && this.buffer == buffer && this.length == length && offset == 0 && depth == 0
      ensures this.noalloc == noalloc && this.format == format && !exhausted
    {
      this.buffer, this.length, this.offset, this.depth := buffer, length, 0, 0;
      this.noalloc, this.format, this.reallocates := noalloc, format, reallocates;
      this.exhausted := false;
    }

    /** `ensure`: room for `needed` bytes and one more behind `offset`. On a buffer that is ready it fails
        only when an allocation fails or when the buffer can never hold that much, and growing keeps
        everything printed so far. Without a buffer, or behind its end, it fails. */
    method Ensure(needed: nat) returns (ok: bool)
      requires Sized()
      modifies this`buffer, this`length, this`exhausted
      ensures ok ==> Ready() && offset + needed + 1 <= length
      ensures ok && old(Ready()) ==> buffer[..offset] == old(buffer[..offset])
      ensures ok ==> (buffer == old(buffer) || fresh(buffer)) && exhausted == old(exhausted)
      ensures noalloc ==> buffer == old(buffer) && length == old(length) && exhausted == old(exhausted)
      ensures ok ==> offset + needed + 1 <= Capacity()
      ensures !ok && old(Ready()) ==> exhausted || offset + needed + 1 > old(Capacity())
      ensures old(buffer == null || offset >= length > 0) ==> !ok
    {
      if buffer == null {
        return false;
      }
      if length > 0 && offset >= length {
        return false;
      }
      if needed > INT_MAX {
        return false;
      }
      var wanted := needed + offset + 1;
      if wanted <= length {
        return true;
      }
      if noalloc {
        return false;
      }
      var newSize := wanted * 2;
      if wanted > INT_MAX / 2 {
        if wanted <= INT_MAX {
          newSize := INT_MAX;
        } else {
          return false;
        }
      }
      var failed: bool := *;
      if failed {
        buffer, length, exhausted := null, 0, true;
        return false;
      }
      var newBuffer := new Byte[newSize];
      KeptFits(reallocates, length, offset);
      Copy(buffer, newBuffer, Kept(reallocates, length, offset));
      length, buffer := newSize, newBuffer;
      return true;
    }

    static method Copy(from: array<Byte>, to: array<Byte>, n: nat)
      requires n <= from.Length && n <= to.Length && from != to
      modifies to
      ensures to[..n] == from[..n]
    {
      for i := 0 to n
        invariant to[..i] == from[..i]
      {
        to[i] := from[i];
      }
    }

    /** `strcpy` and `memcpy` into the buffer. */
    method Store(at: nat, piece: Bytes)
      requires buffer != null && at + |piece| <= length <= buffer.Length
      modifies buffer
      ensures buffer[..at + |piece|] == old(buffer[..at]) + piece
      ensures buffer[at + |piece|..] == old(buffer[at + |piece|..])
    {
      for i := 0 to |piece|
        invariant buffer[..at + i] == old(buffer[..at]) + piece[..i]
        invariant buffer[at + |piece|..] == old(buffer[at + |piece|..])
      {
        buffer[at + i] := piece[i];
        assert piece[..i + 1] == piece[..i] + [piece[i]];
        assert buffer[..at + i + 1] == buffer[..at + i] + [piece[i]];
      }
      assert piece[..|piece|] == piece;
    }

    /** The printer's way to write: make room, write `piece` behind `offset`, and move the offset
        over the part of it that later text does not overwrite. */
    method Put(piece: Bytes, needed: nat, advance: nat) returns (ok: bool)
      requires Ready() && advance <= |piece| <= needed + 1 && advance <= needed
      modifies this`buffer, this`length, this`offset, this`exhausted, buffer
      ensures ok ==> Ready() && offset == old(offset) + advance && old(offset) + |piece| <= length
      ensures ok ==> buffer[..old(offset) + |piece|] == old(buffer[..offset]) + piece
      ensures ok ==> (buffer == old(buffer) || fresh(buffer)) && exhausted == old(exhausted)
      ensures noalloc ==> buffer == old(buffer) && length == old(length) && exhausted == old(exhausted)
      ensures noalloc ==> buffer[length..] == old(buffer[length..])
      ensures if ok then old(offset) + needed + 1 <= Capacity()
              else exhausted || old(offset) + needed + 1 > old(Capacity())
    {
      ok := Ensure(needed);
      if ok {
        ghost var behind := buffer[offset + |piece|..];
        ghost var outside := buffer[length..];
        assert outside == behind[length - offset - |piece|..];
        Store(offset, piece);
        assert buffer[length..] == buffer[offset + |piece|..][length - offset - |piece|..];
        offset := offset + advance;
      }
    }

    /** `update_offset`: the offset moves to the terminator of what was printed last. */
    method UpdateOffset(ghost end: nat)
      requires buffer != null && offset <= end < length <= buffer.Length && buffer[end] == NUL
      requires forall k :: offset <= k < end ==> buffer[k] != NUL
      modifies this`offset
      ensures offset == end
    {
      while buffer[offset] != NUL
        invariant old(offset) <= offset <= end
        decreases end - offset
      {
        offset := offset + 1;
      }
    }

    /** The first loop of `print_string_ptr`: how many bytes escaping adds. */
    method CountEscapes(input: Bytes) returns (extra: nat)
      ensures |input| + extra == |Strings.Escape(input)|
    {
      extra := 0;
      var i := 0;
      while i < |input|
        invariant 0 <= i <= |input|
        invariant |Strings.Escape(input)| == i + extra + |Strings.Escape(input[i..])|
      {
        assert input[i..][1..] == input[i + 1..];
        var b := input[i];
        if b == QUOTE || b == BACKSLASH || b == 8 || b == 12 || b == 10 || b == 13 || b == 9 {
          extra := extra + 1;
        } else if b < 32 {
          extra := extra + 5;
        }
        i := i + 1;
      }
    }

    /** The last loop of `print_string_ptr`: the escaped string behind position `at`. */
    method StoreEscaped(at: nat, input: Bytes)
      requires buffer != null && at + |Strings.Escape(input)| <= length <= buffer.Length
      modifies buffer
      ensures buffer[..at + |Strings.Escape(input)|] == old(buffer[..at]) + Strings.Escape(input)
      ensures buffer[length..] == old(buffer[length..])
    {
      var output, i := at, 0;
      ghost var before, rest := buffer[..at], Strings.Escape(input);
      assert input[0..] == input;
      while i < |input|
        invariant 0 <= i <= |input| && at <= output && output + |rest| == at + |Strings.Escape(input)|
        invariant rest == Strings.Escape(input[i..]) && buffer[..output] + rest == before + Strings.Escape(input)
        invariant buffer[length..] == old(buffer[length..])
      {
        ghost var more := Strings.Escape(input[i + 1..]);
        var piece := Strings.EscapeByte(input[i]);
        assert rest == piece + more by { assert input[i..][1..] == input[i + 1..]; }
        StorePiece(output, piece, more);
        output, i, rest := output + |piece|, i + 1, more;
      }
      assert buffer[..output] + [] == buffer[..output];
    }

    method StorePiece(at: nat, piece: Bytes, ghost more: Bytes)
      requires buffer != null && at + |piece| <= length <= buffer.Length
      modifies buffer
      ensures buffer[..at + |piece|] + more == old(buffer[..at]) + (piece + more)
      ensures buffer[length..] == old(buffer[length..])
    {
      ghost var done := buffer[..at];
      StoreInside(at, piece);
      Assoc(done, piece, more);
    }

    /** `Store` with the part behind the buffer's length named. */
    method StoreInside(at: nat, piece: Bytes)
      requires buffer != null && at + |piece| <= length <= buffer.Length
      modifies buffer
      ensures buffer[..at + |piece|] == old(buffer[..at]) + piece
      ensures buffer[length..] == old(buffer[length..])
    {
      ghost var behind := buffer[at + |piece|..];
      assert buffer[length..] == behind[length - at - |piece|..];
      Store(at, piece);
      assert buffer[length..] == behind[length - at - |piece|..];
    }

    /** `print_string_ptr`: the quoted string and its terminator; the offset stays. */
    method PrintString(input: Bytes) returns (ok: bool)
      requires Ready()
      modifies this`buffer, this`length, this`exhausted, buffer
      ensures Printed(ok, old(Capacity()), old(offset), old(exhausted), |Strings.Quoted(input)|)
      ensures ok ==> offset == old(offset) && Holds(old(buffer[..offset]) + Strings.Quoted(input))
      ensures ok ==> buffer == old(buffer) || fresh(buffer)
      ensures noalloc ==> Fixed(old(buffer), old(length), old(buffer[length..]))
    {
      var extra := CountEscapes(input);
      var outputLength := |input| + extra;
      ok := Ensure(outputLength + 3);
      if !ok {
        return;
      }
      StoreQuoted(input, extra);
    }

    /** The writing part of `print_string_ptr`. */
    method StoreQuoted(input: Bytes, extra: nat)
      requires Ready() && |input| + extra == |Strings.Escape(input)| && offset + |input| + extra + 4 <= length
      modifies buffer
      ensures Holds(old(buffer[..offset]) + Strings.Quoted(input))
      ensures buffer[length..] == old(buffer[length..])
    {
      ghost var before, body := buffer[..offset], Strings.Escape(input);
      StoreInside(offset, [QUOTE]);
      StoreBody(offset + 1, input, extra);
      StoreInside(offset + |input| + extra + 1, [QUOTE, NUL]);
      QuotedText(before, body);
      ghost var shown := before + Strings.Quoted(input);
      assert |shown| + 1 == offset + |input| + extra + 3;
    }

    /** A string without anything to escape is copied as it is. */
    method StoreBody(at: nat, input: Bytes, extra: nat)
      requires buffer != null && |input| + extra == |Strings.Escape(input)|
      requires at + |input| + extra <= length <= buffer.Length
      modifies buffer
      ensures buffer[..at + |input| + extra] == old(buffer[..at]) + Strings.Escape(input)
      ensures buffer[length..] == old(buffer[length..])
    {
      if extra == 0 {
        PlainString(input);
        StoreInside(at, input);
      } else {
        StoreEscaped(at, input);
      }
    }

    /** The buffer starts with `text` and a terminator. */
    ghost predicate Holds(text: Bytes)
      reads this, buffer
    {
      Ready() && |text| < length && buffer[..|text| + 1] == text + [NUL]
    }

    /** Printing `size` bytes from position `start` on has come out as `ok`: it works exactly when
        they and two more bytes fit, unless an allocation fails. */
    ghost predicate Printed(ok: bool, capacity: nat, start: nat, wasExhausted: bool, size: nat)
      reads this
    {
      if ok then start + size + 2 <= capacity == Capacity() && exhausted == wasExhausted
      else (exhausted || start + size + 2 > capacity) && (noalloc ==> exhausted == wasExhausted)
    }

    /** A part of a value, `size` bytes from position `start` on, has been printed or not: it fails only
        when it cannot fit with two more bytes behind it, or when an allocation fails. */
    ghost predicate Stepped(ok: bool, capacity: nat, start: nat, wasExhausted: bool, size: nat)
      reads this
    {
      if ok then capacity == Capacity() && exhausted == wasExhausted
      else (exhausted || start + size + 2 > capacity) && (noalloc ==> exhausted == wasExhausted)
    }

    /** The buffer holds `text` up to the offset. */
    ghost predicate Shows(text: Bytes)
      reads this, buffer
    {
      Ready() && offset == |text| && buffer[..offset] == text
    }

    /** A fixed buffer is still the same, and so are its bytes behind `size`. */
    ghost predicate Fixed(b: array?<Byte>, size: nat, outside: Bytes)
      reads this, buffer
    {
      buffer == b && buffer != null && length == size <= buffer.Length && buffer[length..] == outside
    }

    /** The part of `print_value` that writes a fixed text, a raw text or a number: `moved` says whether
        the offset moves over it. */
    method PrintText(text: Bytes, moved: bool) returns (ok: bool)
      requires Ready()
      modifies this`buffer, this`length, this`offset, this`exhausted, buffer
      ensures Printed(ok, old(Capacity()), old(offset), old(exhausted), |text|)
      ensures ok ==> old(offset) <= offset <= old(offset) + |text| && Holds(old(buffer[..offset]) + text)
      ensures ok ==> buffer == old(buffer) || fresh(buffer)
      ensures noalloc ==> Fixed(old(buffer), old(length), old(buffer[length..]))
    {
      ghost var before := buffer[..offset];
      ok := Put(text + [NUL], |text| + 1, if moved then |text| else 0);
      Assoc(before, text, [NUL]);
      assert |before + text| == |before| + |text|;
    }

    /** `print_value` */
    method PrintValue(j: Json) returns (ok: bool)
      requires Ready() && Printable(j)
      modifies this, buffer
      ensures Printed(ok, old(Capacity()), old(offset), old(exhausted), |Render(j, format, old(depth))|)
      ensures ok ==> depth == old(depth) && old(offset) <= offset <= old(offset) + |Render(j, format, old(depth))|
      ensures ok ==> Holds(old(buffer[..offset]) + Render(j, format, old(depth)))
      ensures ok ==> buffer == old(buffer) || fresh(buffer)
      ensures noalloc ==> Fixed(old(buffer), old(length), old(buffer[length..]))
      decreases j, 1
    {
      match j
      case Null => ok := PrintText(NULL_TEXT, false);
      case False => ok := PrintText(FALSE_TEXT, false);
      case True => ok := PrintText(TRUE_TEXT, false);
      case Number(v) => ok := PrintText(Numbers.DecimalText(v.Floor), true);
      case Raw(text) => ok := PrintText(text, false);
      case String(text) => ok := PrintString(text);
      case Array(items) => ok := PrintArray(j);
      case Object(members) => ok := PrintObject(j);
    }

    /** `print_value` and then `update_offset`. */
    method PrintOver(j: Json) returns (ok: bool)
      requires Ready() && Printable(j)
      modifies this, buffer
      ensures Stepped(ok, old(Capacity()), old(offset), old(exhausted), |Render(j, format, old(depth))|)
      ensures ok ==> depth == old(depth) && Shows(old(buffer[..offset]) + Render(j, format, old(depth)))
      ensures ok ==> buffer == old(buffer) || fresh(buffer)
      ensures noalloc ==> Fixed(old(buffer), old(length), old(buffer[length..]))
      decreases j, 2
    {
      ghost var before, text := buffer[..offset], Render(j, format, depth);
      ok := PrintValue(j);
      if ok {
        RenderNoNul(j, format, depth);
        Advance(before, text);
      }
    }

    method Advance(ghost before: Bytes, ghost text: Bytes)
      requires Holds(before + text) && |before| <= offset <= |before| + |text| && NoNul(text)
      modifies this`offset
      ensures Shows(before + text)
    {
      ghost var all := before + text;
      forall k | offset <= k < |all|
        ensures buffer[k] != NUL
      {
        assert buffer[k] == buffer[..|all| + 1][k] == all[k] == text[k - |before|];
      }
      assert buffer[|all|] == buffer[..|all| + 1][|all|] == NUL;
      UpdateOffset(|all|);
      assert buffer[..|all|] == buffer[..|all| + 1][..|all|] == all;
    }

    /** `print_array` */
    method PrintArray(j: Json) returns (ok: bool)
      requires Ready() && j.Array? && Printable(j)
      modifies this, buffer
      ensures Printed(ok, old(Capacity()), old(offset), old(exhausted), |Render(j, format, old(depth))|)
      ensures ok ==> depth == old(depth) && old(offset) <= offset <= old(offset) + |Render(j, format, old(depth))|
      ensures ok ==> Holds(old(buffer[..offset]) + Render(j, format, old(depth)))
      ensures ok ==> buffer == old(buffer) || fresh(buffer)
      ensures noalloc ==> Fixed(old(buffer), old(length), old(buffer[length..]))
      decreases j, 0, 4
    {
      ghost var before, inside := buffer[..offset], RenderItems(j.items, format, depth + 1);
      assert Render(j, format, depth) == [OPEN_BRACKET] + (inside + [CLOSE_BRACKET]);
      ok := PutPiece([OPEN_BRACKET], false, 1);
      if !ok {
        return;
      }
      depth := depth + 1;
      ok := FinishArray(j, before);
    }

    /** The items of an array and its closing bracket. */
    method FinishArray(j: Json, ghost before: Bytes) returns (ok: bool)
      requires j.Array? && Printable(j) && depth > 0 && Shows(before + [OPEN_BRACKET])
      modifies this, buffer
      ensures var text := [OPEN_BRACKET] + (RenderItems(j.items, format, old(depth)) + [CLOSE_BRACKET]);
              Printed(ok, old(Capacity()), |before|, old(exhausted), |text|) && (ok ==> Holds(before + text))
      ensures ok ==> depth == old(depth) - 1 && offset == |before| + 1 + |RenderItems(j.items, format, old(depth))|
      ensures ok ==> buffer == old(buffer) || fresh(buffer)
      ensures noalloc ==> Fixed(old(buffer), old(length), old(buffer[length..]))
      decreases j, 0, 3
    {
      ghost var inside := RenderItems(j.items, format, depth);
      assert |before + [OPEN_BRACKET]| == |before| + 1;
      ok := PrintItems(j);
      if ok {
        assert |before + [OPEN_BRACKET] + inside| == |before| + 1 + |inside|;
        ok := CloseArray(before, inside);
      }
    }

    /** The last part of `print_array`. */
    method CloseArray(ghost before: Bytes, ghost inside: Bytes) returns (ok: bool)
      requires depth > 0 && Shows(before + [OPEN_BRACKET] + inside)
      modifies this, buffer
      ensures var text := [OPEN_BRACKET] + (inside + [CLOSE_BRACKET]);
              Printed(ok, old(Capacity()), |before|, old(exhausted), |text|) && (ok ==> Holds(before + text))
      ensures ok ==> depth == old(depth) - 1 && offset == old(offset)
      ensures ok ==> buffer == old(buffer) || fresh(buffer)
      ensures noalloc ==> Fixed(old(buffer), old(length), old(buffer[length..]))
    {
      BracketText(before, inside);
      assert |before + ([OPEN_BRACKET] + (inside + [CLOSE_BRACKET]))| == |before| + |inside| + 2;
      ok := Put([CLOSE_BRACKET, NUL], 2, 0);
      if ok {
        depth := depth - 1;
      }
    }

    /** The loop of `print_array`. */
    method PrintItems(j: Json) returns (ok: bool)
      requires Ready() && j.Array? && Printable(j)
      modifies this, buffer
      ensures Stepped(ok, old(Capacity()), old(offset), old(exhausted), |RenderItems(j.items, format, old(depth))|)
      ensures ok ==> depth == old(depth) && Shows(old(buffer[..offset]) + RenderItems(j.items, format, old(depth)))
      ensures ok ==> buffer == old(buffer) || fresh(buffer)
      ensures noalloc ==> Fixed(old(buffer), old(length), old(buffer[length..]))
      decreases j, 0, 1
    {
      var items, i := j.items, 0;
      ghost var rest := RenderItems(items, format, depth);
      ghost var goal := buffer[..offset] + rest;
      assert items[0..] == items;
      while i < |items|
        invariant 0 <= i <= |items| && Ready() && depth == old(depth)
        invariant rest == RenderItems(items[i..], format, depth)
        invariant offset + |rest| == |goal| && buffer[..offset] + rest == goal
        invariant Stepped(true, old(Capacity()), old(offset), old(exhausted), 0)
        invariant buffer == old(buffer) || fresh(buffer)
        invariant noalloc ==> Fixed(old(buffer), old(length), old(buffer[length..]))
      {
        ghost var done, head := buffer[..offset], ItemText(items, i, format, depth);
        ItemsStep(items, i, format, depth);
        rest := RenderItems(items[i + 1..], format, depth);
        Assoc(done, head, rest);
        ok := PrintItem(j, i);
        if !ok {
          return;
        }
        i := i + 1;
      }
      assert buffer[..offset] + [] == buffer[..offset];
      ok := true;
    }

    /** One round of that loop: an item and what separates it from the next one. */
    method PrintItem(j: Json, i: nat) returns (ok: bool)
      requires Ready() && j.Array? && Printable(j) && i < |j.items|
      modifies this, buffer
      ensures Stepped(ok, old(Capacity()), old(offset), old(exhausted), |ItemText(j.items, i, format, old(depth))|)
      ensures ok ==> depth == old(depth) && Shows(old(buffer[..offset]) + ItemText(j.items, i, format, old(depth)))
      ensures ok ==> buffer == old(buffer) || fresh(buffer)
      ensures noalloc ==> Fixed(old(buffer), old(length), old(buffer[length..]))
      decreases j, 0, 0
    {
      ghost var done, text := buffer[..offset], Render(j.items[i], format, depth);
      ok := PrintOver(j.items[i]);
      if !ok {
        return;
      }
      if i + 1 < |j.items| {
        var gap := [COMMA] + ItemGap(format);
        ok := PutPiece(gap, true, |gap| + 1);
        Assoc(done, text, gap);
      } else {
        assert text + [] == text;
      }
    }

    /** Text that more text follows: the offset moves over all of `piece`, behind which there may be a
        terminator. */
    method PutPiece(piece: Bytes, terminated: bool, needed: nat) returns (ok: bool)
      requires Ready() && |piece| + (if terminated then 1 else 0) <= needed <= |piece| + 1
      modifies this`buffer, this`length, this`offset, this`exhausted, buffer
      ensures Stepped(ok, old(Capacity()), old(offset), old(exhausted), |piece|)
      ensures ok ==> Shows(old(buffer[..offset]) + piece)
      ensures ok ==> buffer == old(buffer) || fresh(buffer)
      ensures noalloc ==> Fixed(old(buffer), old(length), old(buffer[length..]))
    {
      ghost var done := buffer[..offset];
      if terminated {
        ok := Put(piece + [NUL], needed, |piece|);
        if ok {
          Overwritten(buffer[..], offset, done, piece);
          assert buffer[..][..offset] == buffer[..offset];
        }
      } else {
        ok := Put(piece, needed, |piece|);
      }
    }

    /** `print_object` */
    method PrintObject(j: Json) returns (ok: bool)
      requires Ready() && j.Object? && Printable(j)
      modifies this, buffer
      ensures Printed(ok, old(Capacity()), old(offset), old(exhausted), |Render(j, format, old(depth))|)
      ensures ok ==> depth == old(depth) && old(offset) <= offset <= old(offset) + |Render(j, format, old(depth))|
      ensures ok ==> Holds(old(buffer[..offset]) + Render(j, format, old(depth)))
      ensures ok ==> buffer == old(buffer) || fresh(buffer)
      ensures noalloc ==> Fixed(old(buffer), old(length), old(buffer[length..]))
      decreases j, 0, 4
    {
      ghost var before, inside := buffer[..offset], RenderMembers(j.members, format, depth + 1);
      var opening := [OPEN_BRACE] + NewLine(format);
      assert Render(j, format, depth) == opening + (inside + (Indent(format, depth) + [CLOSE_BRACE]));
      ok := PutPiece(opening, false, |opening| + 1);
      if !ok {
        return;
      }
      depth := depth + 1;
      ok := FinishObject(j, before, opening);
    }

    /** The members of an object and its closing brace. */
    method FinishObject(j: Json, ghost before: Bytes, ghost opening: Bytes) returns (ok: bool)
      requires j.Object? && Printable(j) && depth > 0 && Shows(before + opening)
      modifies this, buffer
      ensures var text := opening + (RenderMembers(j.members, format, old(depth))
                                     + (Indent(format, old(depth) - 1) + [CLOSE_BRACE]));
              Printed(ok, old(Capacity()), |before|, old(exhausted), |text|) && (ok ==> Holds(before + text))
      ensures ok ==> depth == old(depth) - 1
                     && offset == |before| + |opening| + |RenderMembers(j.members, format, old(depth))|
      ensures ok ==> buffer == old(buffer) || fresh(buffer)
      ensures noalloc ==> Fixed(old(buffer), old(length), old(buffer[length..]))
      decreases j, 0, 3
    {
      ghost var inside := RenderMembers(j.members, format, depth);
      assert |before + opening| == |before| + |opening|;
      ok := PrintMembers(j);
      if ok {
        assert |before + opening + inside| == |before| + |opening| + |inside|;
        ok := CloseObject(before, opening, inside);
      }
    }

    /** The last part of `print_object`. */
    method CloseObject(ghost before: Bytes, ghost opening: Bytes, ghost inside: Bytes) returns (ok: bool)
      requires depth > 0 && Shows(before + opening + inside)
      modifies this, buffer
      ensures var text := opening + (inside + (Indent(format, old(depth) - 1) + [CLOSE_BRACE]));
              Printed(ok, old(Capacity()), |before|, old(exhausted), |text|) && (ok ==> Holds(before + text))
      ensures ok ==> depth == old(depth) - 1 && offset == old(offset)
      ensures ok ==> buffer == old(buffer) || fresh(buffer)
      ensures noalloc ==> Fixed(old(buffer), old(length), old(buffer[length..]))
    {
      var indent := Indent(format, depth - 1);
      BraceText(before, opening, inside, indent);
      ghost var shown := before + (opening + (inside + (indent + [CLOSE_BRACE])));
      assert |shown| == |before| + |opening| + |inside| + |indent| + 1;
      ok := Put(indent + [CLOSE_BRACE, NUL], if format then depth + 1 else 2, 0);
      if ok {
        depth := depth - 1;
      }
    }

    /** The loop of `print_object`. */
    method PrintMembers(j: Json) returns (ok: bool)
      requires Ready() && j.Object? && Printable(j)
      modifies this, buffer
      ensures Stepped(ok, old(Capacity()), old(offset), old(exhausted), |RenderMembers(j.members, format, old(depth))|)
      ensures ok ==> depth == old(depth) && Shows(old(buffer[..offset]) + RenderMembers(j.members, format, old(depth)))
      ensures ok ==> buffer == old(buffer) || fresh(buffer)
      ensures noalloc ==> Fixed(old(buffer), old(length), old(buffer[length..]))
      decreases j, 0, 2
    {
      var members, i := j.members, 0;
      ghost var rest := RenderMembers(members, format, depth);
      ghost var goal := buffer[..offset] + rest;
      assert members[0..] == members;
      while i < |members|
        invariant 0 <= i <= |members| && Ready() && depth == old(depth)
        invariant rest == RenderMembers(members[i..], format, depth)
        invariant offset + |rest| == |goal| && buffer[..offset] + rest == goal
        invariant Stepped(true, old(Capacity()), old(offset), old(exhausted), 0)
        invariant buffer == old(buffer) || fresh(buffer)
        invariant noalloc ==> Fixed(old(buffer), old(length), old(buffer[length..]))
      {
        ghost var done, head := buffer[..offset], MemberText(members, i, format, depth);
        MembersStep(members, i, format, depth);
        rest := RenderMembers(members[i + 1..], format, depth);
        Assoc(done, head, rest);
        ok := PrintMember(j, i);
        if !ok {
          return;
        }
        i := i + 1;
      }
      assert buffer[..offset] + [] == buffer[..offset];
      ok := true;
    }

    /** One round of that loop: a member and what separates it from the next one. */
    method PrintMember(j: Json, i: nat) returns (ok: bool)
      requires Ready() && j.Object? && Printable(j) && i < |j.members|
      modifies this, buffer
      ensures Stepped(ok, old(Capacity()), old(offset), old(exhausted), |MemberText(j.members, i, format, old(depth))|)
      ensures ok ==> depth == old(depth) && Shows(old(buffer[..offset]) + MemberText(j.members, i, format, old(depth)))
      ensures ok ==> buffer == old(buffer) || fresh(buffer)
      ensures noalloc ==> Fixed(old(buffer), old(length), old(buffer[length..]))
      decreases j, 0, 1
    {
      ghost var done := buffer[..offset];
      ok := PrintKey(j.members[i].key);
      if ok {
        ok := PrintRest(j, i);
        Assoc(done, RenderKey(j.members[i].key, format, depth), MemberRest(j.members, i, format, depth));
      }
    }

    /** The value of a member and what separates it from the next one. */
    method PrintRest(j: Json, i: nat) returns (ok: bool)
      requires Ready() && j.Object? && Printable(j) && i < |j.members|
      modifies this, buffer
      ensures Stepped(ok, old(Capacity()), old(offset), old(exhausted), |MemberRest(j.members, i, format, old(depth))|)
      ensures ok ==> depth == old(depth) && Shows(old(buffer[..offset]) + MemberRest(j.members, i, format, old(depth)))
      ensures ok ==> buffer == old(buffer) || fresh(buffer)
      ensures noalloc ==> Fixed(old(buffer), old(length), old(buffer[length..]))
      decreases j, 0, 0
    {
      ghost var done, text := buffer[..offset], Render(j.members[i].value, format, depth);
      ok := PrintOver(j.members[i].value);
      if ok {
        var end := MemberEnd(i + 1 < |j.members|, format);
        ok := PutPiece(end, true, |end| + 1);
        Assoc(done, text, end);
      }
    }

    /** A member up to its value: the indentation, the key and the colon. */
    method PrintKey(key: Bytes) returns (ok: bool)
      requires Ready() && NoNul(key)
      modifies this`buffer, this`length, this`offset, this`exhausted, buffer
      ensures Stepped(ok, old(Capacity()), old(offset), old(exhausted), |RenderKey(key, format, depth)|)
      ensures ok ==> Shows(old(buffer[..offset]) + RenderKey(key, format, depth))
      ensures ok ==> buffer == old(buffer) || fresh(buffer)
      ensures noalloc ==> Fixed(old(buffer), old(length), old(buffer[length..]))
    {
      ghost var done := buffer[..offset];
      ok := PrintIndent();
      if ok {
        ok := PrintName(key);
        Assoc(done, Indent(format, depth), Strings.Quoted(key) + ([COLON] + ValueGap(format)));
      }
    }

    /** The indentation, if there is any. */
    method PrintIndent() returns (ok: bool)
      requires Ready()
      modifies this`buffer, this`length, this`offset, this`exhausted, buffer
      ensures Stepped(ok, old(Capacity()), old(offset), old(exhausted), |Indent(format, depth)|)
      ensures ok ==> Shows(old(buffer[..offset]) + Indent(format, depth))
      ensures ok ==> buffer == old(buffer) || fresh(buffer)
      ensures noalloc ==> Fixed(old(buffer), old(length), old(buffer[length..]))
    {
      if format {
        ok := PutPiece(Tabs(depth), false, depth);
      } else {
        assert buffer[..offset] + [] == buffer[..offset];
        ok := true;
      }
    }

    /** The key and the colon. */
    method PrintName(key: Bytes) returns (ok: bool)
      requires Ready() && NoNul(key)
      modifies this`buffer, this`length, this`offset, this`exhausted, buffer
      ensures Stepped(ok, old(Capacity()), old(offset), old(exhausted),
                      |Strings.Quoted(key) + ([COLON] + ValueGap(format))|)
      ensures ok ==> Shows(old(buffer[..offset]) + (Strings.Quoted(key) + ([COLON] + ValueGap(format))))
      ensures ok ==> buffer == old(buffer) || fresh(buffer)
      ensures noalloc ==> Fixed(old(buffer), old(length), old(buffer[length..]))
    {
      ghost var done, quoted := buffer[..offset], Strings.Quoted(key);
      ok := PrintString(key);
      if ok {
        QuotedNoNul(key);
        Advance(done, quoted);
        var colon := [COLON] + ValueGap(format);
        ok := PutPiece(colon, false, |colon|);
        Assoc(done, quoted, colon);
      }
    }
  }

  /** `print`: an allocated copy of exactly the text and its terminator. It fails only when an allocation
      fails or when the text outgrows `INT_MAX`. */
  method Print(j: Json, format: bool, reallocates: bool) returns (printed: array?<Byte>, ghost exhausted: bool)
    requires Printable(j)
    ensures printed == null <==> exhausted || |Render(j, format, 0)| + 2 > INT_MAX
    ensures printed != null ==> fresh(printed) && printed[..] == Render(j, format, 0) + [NUL]
  {
    var failed: bool := *;
    if failed {
      return null, true;
    }
    var start := new Byte[256];
    var p := new PrintBuffer(start, 256, false, format, reallocates);
    ghost var text := Render(j, format, 0);
    assert start[..0] + text == text && [] + text == text;
    var ok := p.PrintValue(j);
    if !ok {
      return null, p.exhausted;
    }
    RenderNoNul(j, format, 0);
    p.Advance([], text);
    failed := *;
    if failed {
      return null, true;
    }
    assert p.Holds(text);
    printed := CopyOut(p, text);
    exhausted := false;
  }

  /** `cjson_min` */
  function Min(a: nat, b: nat): nat {
    if a < b then a else b
  }

  /** The end of `print`: the text without the room behind it. */
  method CopyOut(p: PrintBuffer, ghost text: Bytes) returns (printed: array<Byte>)
    requires p.Holds(text) && p.offset == |text|
    ensures fresh(printed) && printed[..] == text + [NUL]
  {
    printed := new Byte[p.offset + 1];
    PrintBuffer.Copy(p.buffer, printed, Min(p.length, p.offset + 1));
    assert printed[..] == printed[..p.offset + 1];
    if !p.reallocates {
      printed[p.offset] := NUL;
      assert printed[..p.offset] == text;
    }
  }

  /** `cJSON_PrintBuffered`. Without `realloc` the first buffer must not be empty. */
  method PrintBuffered(j: Json, prebuffer: int, format: bool, reallocates: bool)
      returns (printed: array?<Byte>, ghost exhausted: bool)
    requires Printable(j) && prebuffer <= INT_MAX && (prebuffer == 0 ==> reallocates)
    ensures printed == null <==> prebuffer < 0 || exhausted || |Render(j, format, 0)| + 2 > INT_MAX
    ensures printed != null ==> fresh(printed) && |Render(j, format, 0)| < printed.Length
    ensures printed != null ==> printed[..|Render(j, format, 0)| + 1] == Render(j, format, 0) + [NUL]
  {
    if prebuffer < 0 {
      return null, false;
    }
    var failed: bool := *;
    if failed {
      return null, true;
    }
    var start := new Byte[prebuffer];
    var p := new PrintBuffer(start, prebuffer, false, format, reallocates);
    assert start[..0] + Render(j, format, 0) == Render(j, format, 0);
    var ok := p.PrintValue(j);
    if !ok {
      return null, p.exhausted;
    }
    return p.buffer, false;
  }

  /** `cJSON_PrintPreallocated`: it succeeds exactly when the text and two more bytes fit, and leaves
      everything from `len` on alone. */
  method PrintPreallocated(j: Json, buf: array?<Byte>, len: int, format: bool) returns (ok: bool)
    requires Printable(j) && len <= INT_MAX && (buf != null ==> len <= buf.Length)
    modifies buf
    ensures ok <==> buf != null && |Render(j, format, 0)| + 2 <= len
    ensures ok ==> buf[..|Render(j, format, 0)| + 1] == Render(j, format, 0) + [NUL]
    ensures buf != null ==> buf[if len < 0 then 0 else len..] == old(buf[if len < 0 then 0 else len..])
  {
    if len < 0 || buf == null {
      return false;
    }
    var p := new PrintBuffer(buf, len, true, format, true);
    assert buf[..0] + Render(j, format, 0) == Render(j, format, 0);
    ok := p.PrintValue(j);
    assert p.Fixed(buf, len, old(buf[len..]));
  }

  lemma BraceText(before: Bytes, opening: Bytes, inside: Bytes, indent: Bytes)
    ensures before + opening + inside + (indent + [CLOSE_BRACE, NUL])
         == before + (opening + (inside + (indent + [CLOSE_BRACE]))) + [NUL]
  {
  }

  /** A member and what separates it from the next one. */
  function MemberText(members: seq<Member>, i: nat, format: bool, depth: nat): Bytes
    requires i < |members|
  {
    RenderKey(members[i].key, format, depth) + MemberRest(members, i, format, depth)
  }

  function MemberRest(members: seq<Member>, i: nat, format: bool, depth: nat): Bytes
    requires i < |members|
  {
    Render(members[i].value, format, depth) + MemberEnd(i + 1 < |members|, format)
  }

  lemma MembersStep(members: seq<Member>, i: nat, format: bool, depth: nat)
    requires i < |members|
    ensures RenderMembers(members[i..], format, depth) ==
            MemberText(members, i, format, depth) + RenderMembers(members[i + 1..], format, depth)
  {
    assert members[i..][1..] == members[i + 1..];
    FourPieces(RenderKey(members[i].key, format, depth), Render(members[i].value, format, depth),
               MemberEnd(i + 1 < |members|, format), RenderMembers(members[i + 1..], format, depth));
  }

  lemma FourPieces(a: Bytes, b: Bytes, c: Bytes, d: Bytes)
    ensures a + (b + c) + d == a + (b + (c + d))
  {
  }

  lemma Assoc(a: Bytes, b: Bytes, c: Bytes)
    ensures a + b + c == a + (b + c)
  {
  }

  lemma BracketText(before: Bytes, inside: Bytes)
    ensures before + [OPEN_BRACKET] + inside + [CLOSE_BRACKET, NUL]
         == before + ([OPEN_BRACKET] + (inside + [CLOSE_BRACKET])) + [NUL]
  {
  }

  /** The terminator behind a piece is not part of what the buffer shows. */
  lemma Overwritten(b: Bytes, offset: nat, done: Bytes, piece: Bytes)
    requires offset < |b| && offset == |done| + |piece| && b[..offset + 1] == done + (piece + [NUL])
    ensures b[..offset] == done + piece
  {
    assert b[..offset] == b[..offset + 1][..offset];
    assert (done + (piece + [NUL]))[..offset] == done + piece;
  }

  /** An item and what separates it from the next one. */
  function ItemText(items: seq<Json>, i: nat, format: bool, depth: nat): Bytes
    requires i < |items|
  {
    Render(items[i], format, depth) + (if i + 1 < |items| then [COMMA] + ItemGap(format) else [])
  }

  lemma ItemsStep(items: seq<Json>, i: nat, format: bool, depth: nat)
    requires i < |items|
    ensures RenderItems(items[i..], format, depth) ==
            ItemText(items, i, format, depth) + RenderItems(items[i + 1..], format, depth)
  {
    assert items[i..][1..] == items[i + 1..];
    var text := Render(items[i], format, depth);
    if i + 1 < |items| {
      Assoc(text, [COMMA] + ItemGap(format), RenderItems(items[i + 1..], format, depth));
    } else {
      assert text + [] + [] == text;
    }
  }

  lemma QuotedText(before: Bytes, body: Bytes)
    ensures before + [QUOTE] + body + [QUOTE, NUL] == before + ([QUOTE] + body + [QUOTE]) + [NUL]
  {
  }

  lemma {:induction false} PlainString(s: Bytes)
    requires |Strings.Escape(s)| == |s|
    ensures Strings.Escape(s) == s
  {
    if s != [] {
      PlainString(s[1..]);
      assert [s[0]] + s[1..] == s;
    }
  }

  lemma NoNulConcat(a: Bytes, b: Bytes)
    requires NoNul(a) && NoNul(b)
    ensures NoNul(a + b)
  {
  }

  lemma {:induction false} RenderNoNul(j: Json, format: bool, depth: nat)
    requires Printable(j)
    ensures NoNul(Render(j, format, depth))
    decreases j, 1
  {
    match j
    case Number(v) => DigitsNoNul(v.Floor);
    case String(text) => QuotedNoNul(text);
    case Array(items) => ItemsNoNul(items, format, depth + 1);
    case Object(members) =>
      MembersNoNul(members, format, depth + 1);
      NoNulConcat(Indent(format, depth), [CLOSE_BRACE]);
      NoNulConcat(RenderMembers(members, format, depth + 1), Indent(format, depth) + [CLOSE_BRACE]);
    case _ =>
  }

  lemma QuotedNoNul(text: Bytes)
    requires NoNul(text)
    ensures NoNul(Strings.Quoted(text))
  {
    Strings.EscapeIsRaw(text);
  }

  lemma DigitsNoNul(n: int)
    ensures NoNul(Numbers.DecimalText(n))
  {
    var m: nat := if n < 0 then -n else n;
    assert Numbers.AllDigits(Numbers.Digits(m));
    assert NoNul(Numbers.Digits(m));
  }

  lemma {:induction false} ItemsNoNul(items: seq<Json>, format: bool, depth: nat)
    requires forall k :: 0 <= k < |items| ==> Printable(items[k])
    ensures NoNul(RenderItems(items, format, depth))
    decreases items, 0
  {
    if items != [] {
      RenderNoNul(items[0], format, depth);
      ItemsNoNul(items[1..], format, depth);
      NoNulConcat([COMMA] + ItemGap(format), RenderItems(items[1..], format, depth));
    }
  }

  lemma {:induction false} MembersNoNul(members: seq<Member>, format: bool, depth: nat)
    requires forall k :: 0 <= k < |members| ==> NoNul(members[k].key) && Printable(members[k].value)
    ensures NoNul(RenderMembers(members, format, depth))
    decreases members, 0
  {
    if members != [] {
      var rest := RenderMembers(members[1..], format, depth);
      var end := MemberEnd(|members| > 1, format);
      RenderNoNul(members[0].value, format, depth);
      MembersNoNul(members[1..], format, depth);
      QuotedNoNul(members[0].key);
      NoNulConcat(Strings.Quoted(members[0].key), [COLON] + ValueGap(format));
      NoNulConcat(Indent(format, depth), Strings.Quoted(members[0].key) + ([COLON] + ValueGap(format)));
      NoNulConcat(end, rest);
      NoNulConcat(Render(members[0].value, format, depth), end + rest);
    }
  }
}
