/** cJSON's parser as it runs: a buffer with an offset and a nesting depth that the parse functions
    move, proved against the functions of module `Parsing`. */
module ParseBuffers {
  import opened Octets
  import opened Json
  import opened Unicode
  import Bits
  import Numbers
  import Strings
  import Parsing

  /** A C string together with its terminator: the only zero byte is the last one. */
  predicate Terminated(c: Bytes) {
    |c| > 0 && c[|c| - 1] == NUL && forall i :: 0 <= i < |c| - 1 ==> c[i] != NUL
  }

  /** What is left to read at position `o`. */
  function Rest(c: Bytes, o: nat): Input
    decreases |c| - o
  {
    if o + 1 < |c| then More(c[o], Rest(c, o + 1)) else End
  }

  lemma {:induction false} RestLength(c: Bytes, o: nat)
    requires o < |c|
    ensures Length(Rest(c, o)) == |c| - 1 - o
    decreases |c| - o
  {
    if o + 1 < |c| {
      RestLength(c, o + 1);
    }
  }

  lemma {:induction false} RestOfText(text: Bytes, o: nat)
    requires o <= |text|
    ensures Rest(text + [NUL], o) == Prepend(text[o..], End)
    decreases |text| - o
  {
    if o < |text| {
      RestOfText(text, o + 1);
      assert text[o..][1..] == text[o + 1..];
    }
  }

  lemma {:induction false} RestDrop(c: Bytes, o: nat, n: nat)
    requires o + n < |c|
    ensures n <= Length(Rest(c, o)) && Drop(Rest(c, o), n) == Rest(c, o + n)
    decreases n
  {
    RestLength(c, o);
    if n > 0 {
      RestDrop(c, o + 1, n - 1);
    }
  }

  // ----- UTF-16 escapes

  /** `parse_hex4` */
  method ParseHex4(c: Bytes, at: nat) returns (h: nat)
    requires at + 4 <= |c|
    ensures h == Strings.Hex4(c[at..at + 4])
  {
    h := 0;
    var q := c[at..at + 4];
    var i := 0;
    while i < 4
      invariant 0 <= i <= 4
      invariant forall k :: 0 <= k < i ==> Strings.IsHex(q[k])
      invariant i == 0 ==> h == 0
      invariant i == 1 ==> h == 16 * Strings.HexValue(q[0])
      invariant i == 2 ==> h == 16 * (16 * Strings.HexValue(q[0]) + Strings.HexValue(q[1]))
      invariant i == 3 ==>
          h == 16 * (16 * (16 * Strings.HexValue(q[0]) + Strings.HexValue(q[1])) + Strings.HexValue(q[2]))
      invariant i == 4 ==> h == Strings.Hex4(q)
    {
      var b := c[at + i];
      assert b == q[i];
      if ZERO <= b <= ZERO + 9 {
        h := h + (b - ZERO);
      } else if 65 <= b <= 70 {
        h := h + (10 + b - 65);
      } else if 97 <= b <= 102 {
        h := h + (10 + b - 97);
      } else {
        assert !Strings.AllHex(q);
        return 0;
      }
      if i < 3 {
        h := h * 16;
      }
      i := i + 1;
    }
  }

  function Shifted(n: nat, k: nat): nat {
    if k == 0 then n else Shifted(n, k - 1) / 64
  }

  lemma ContinuationByte(point: nat, k: nat)
    requires point <= 0x10FFFF && 1 <= k < Utf8Length(point)
    ensures Utf8(point)[k] == Continuation(Shifted(point, Utf8Length(point) - 1 - k))
  {
    assert Shifted(point, 1) == point / 0x40;
    assert Shifted(point, 2) == point / 0x1000;
  }

  /** What the mark of the first byte leaves room for. */
  lemma FirstByte(point: nat, mark: nat)
    requires 0x80 <= point <= 0x10FFFF
    requires mark == if point < 0x800 then 0xC0 else if point < 0x10000 then 0xE0 else 0xF0
    ensures Bits.And(Bits.Or(Shifted(point, Utf8Length(point) - 1), mark), 0xFF) == Utf8(point)[0]
  {
    Bits.Powers();
    if point < 0x800 {
      assert Shifted(point, 1) == point / 0x40;
      Bits.MarkedByte(5, 32, point / 0x40, 6, mark);
    } else if point < 0x10000 {
      assert Shifted(point, 1) == point / 0x40;
      assert Shifted(point, 2) == point / 0x1000;
      Bits.MarkedByte(4, 16, point / 0x1000, 14, mark);
    } else {
      assert Shifted(point, 1) == point / 0x40;
      assert Shifted(point, 2) == point / 0x1000;
      assert Shifted(point, 3) == point / 0x40000;
      Bits.MarkedByte(3, 8, point / 0x40000, 30, mark);
    }
  }

  /** The encoding part of `utf16_literal_to_utf8`: the bytes are written last to first. */
  method EncodeUtf8(point: nat, output: array<Byte>, at: nat) returns (length: nat)
    requires point <= 0x10FFFF && at + Utf8Length(point) <= output.Length
    modifies output
    ensures length == Utf8Length(point)
    ensures output[..at + length] == old(output[..at]) + Utf8(point)
  {
    var codepoint := point;
    var firstByteMark := 0;
    if codepoint < 0x80 {
      length := 1;
    } else if codepoint < 0x800 {
      length := 2;
      firstByteMark := 0xC0;
    } else if codepoint < 0x10000 {
      length := 3;
      firstByteMark := 0xE0;
    } else {
      length := 4;
      firstByteMark := 0xF0;
    }
    ghost var before := output[..at];
    codepoint := EncodeTail(point, output, at, length);
    var first := EncodeFirst(point, codepoint, firstByteMark, length);
    output[at] := first;
    OneMore(output[..], at, length, before, Utf8(point));
  }

  lemma OneMore(output: Bytes, at: nat, length: nat, before: Bytes, bytes: Bytes)
    requires 0 < length == |bytes| && at + length <= |output| && output[..at] == before
    requires output[at] == bytes[0] && output[at + 1..at + length] == bytes[1..]
    ensures output[..at + length] == before + bytes
  {
    assert output[..at + length] == output[..at] + [output[at]] + output[at + 1..at + length];
    assert bytes == [bytes[0]] + bytes[1..];
  }

  /** The loop that writes all bytes but the first one. */
  method EncodeTail(point: nat, output: array<Byte>, at: nat, length: nat) returns (codepoint: nat)
    requires point <= 0x10FFFF && length == Utf8Length(point) && at + length <= output.Length
    modifies output
    ensures codepoint == Shifted(point, length - 1) && output[..at] == old(output[..at])
    ensures output[at + 1..at + length] == Utf8(point)[1..]
  {
    codepoint := point;
    ghost var bytes := Utf8(point);
    var position := length - 1;
    while position > 0
      invariant 0 <= position < length && codepoint == Shifted(point, length - 1 - position)
      invariant output[..at] == old(output[..at])
      invariant output[at + position + 1..at + length] == bytes[position + 1..]
    {
      var b := EncodeContinuation(codepoint);
      assert b == bytes[position] by { ContinuationByte(point, position); }
      output[at + position] := b;
      codepoint := codepoint / 64;
      position := position - 1;
      assert output[at + position + 1..at + length] == [b] + output[at + position + 2..at + length];
    }
  }

  method EncodeContinuation(codepoint: nat) returns (b: Byte)
    ensures b == Continuation(codepoint)
  {
    Bits.Continuation(codepoint);
    b := Bits.And(Bits.Or(codepoint, 0x80), 0xBF);
  }

  method EncodeFirst(ghost point: nat, codepoint: nat, firstByteMark: nat, length: nat) returns (b: Byte)
    requires point <= 0x10FFFF && length == Utf8Length(point) && codepoint == Shifted(point, length - 1)
    requires firstByteMark ==
             if point < 0x80 then 0 else if point < 0x800 then 0xC0 else if point < 0x10000 then 0xE0 else 0xF0
    ensures b == Utf8(point)[0]
  {
    if length > 1 {
      FirstByte(point, firstByteMark);
      b := Bits.And(Bits.Or(codepoint, firstByteMark), 0xFF);
    } else {
      OnlyByte(point);
      b := Bits.And(codepoint, 0x7F);
    }
  }

  lemma OnlyByte(point: nat)
    requires point < 0x80
    ensures Shifted(point, 0) == point && Bits.And(point, 0x7F) == Utf8(point)[0]
  {
    Bits.Powers();
    Bits.LowBits(point, 7, 128);
  }

  /** `0x10000 + (((first & 0x3FF) << 10) | (second & 0x3FF))` */
  lemma CombineBits(first: nat, second: nat)
    requires IsHighSurrogate(first) && IsLowSurrogate(second)
    ensures 0x10000 + Bits.Or(Bits.And(first, 0x3FF) * 0x400, Bits.And(second, 0x3FF)) == Combine(first, second)
  {
    var high: nat, low: nat := first - 0xD800, second - 0xDC00;
    TenBits(first, 0x36, high);
    TenBits(second, 0x37, low);
    JoinTens(high, low);
  }

  lemma TenBits(n: nat, q: nat, r: nat)
    requires n == 0x400 * q + r && r < 0x400
    ensures Bits.And(n, 0x3FF) == r
  {
    Bits.Powers();
    Bits.AndMask(n, 10, 0x400);
    Bits.ModUnique(n, 0x400, q, r);
  }

  lemma JoinTens(high: nat, low: nat)
    requires low < 0x400
    ensures Bits.Or(high * 0x400, low) == high * 0x400 + low
  {
    Bits.Powers();
    Bits.OrAbove(10, 0x400, low, high);
    Bits.OrCommutes(low, 0x400 * high);
  }

  lemma Slice(c: Bytes, at: nat, end: nat, i: nat, j: nat)
    requires i <= j && at + j <= end <= |c|
    ensures c[at..end][i..j] == c[at + i..at + j]
  {
    var s := c[at..end];
    assert forall k {:trigger s[k]} :: i <= k < j ==> s[k] == c[at + k];
    assert forall k :: 0 <= k < j - i ==> s[i..j][k] == s[i + k];
  }

  /** The decoding part of `utf16_literal_to_utf8`: the code point of the escape at `at`, and how
      many bytes it takes, which is zero when it is malformed. */
  method ReadLiteral(c: Bytes, at: nat, end: nat) returns (length: nat, point: nat)
    requires at < end < |c|
    ensures match Strings.Utf16Literal(c[at..end + 1])
            case BadLiteral => length == 0
            case Literal(n, p) => length == n && point == p && p <= 0x10FFFF
  {
    point := 0;
    if end - at < 6 {
      return 0, 0;
    }
    var first := ParseHex4(c, at + 2);
    Slice(c, at, end + 1, 2, 6);
    if 0xDC00 <= first <= 0xDFFF {
      return 0, 0;
    }
    if 0xD800 <= first <= 0xDBFF {
      length, point := ReadPair(c, at, end, first);
    } else {
      length := 6;
      point := first;
    }
  }

  /** The second half of a surrogate pair. */
  method ReadPair(c: Bytes, at: nat, end: nat, first: nat) returns (length: nat, point: nat)
    requires at + 6 <= end < |c| && IsHighSurrogate(first) && first == Strings.Hex4(c[at..end + 1][2..6])
    ensures match Strings.Utf16Literal(c[at..end + 1])
            case BadLiteral => length == 0
            case Literal(n, p) => length == n && point == p && p <= 0x10FFFF
  {
    ghost var s := c[at..end + 1];
    point := 0;
    if end - (at + 6) < 6 {
      return 0, 0;
    }
    assert c[at + 6] == s[6] && c[at + 7] == s[7];
    if c[at + 6] != BACKSLASH || c[at + 7] != LETTER_U {
      return 0, 0;
    }
    var second := ParseHex4(c, at + 8);
    Slice(c, at, end + 1, 8, 12);
    if second < 0xDC00 || second > 0xDFFF {
      return 0, 0;
    }
    point := 0x10000 + Bits.Or(Bits.And(first, 0x3FF) * 0x400, Bits.And(second, 0x3FF));
    CombineBits(first, second);
    length := 12;
  }

  // ----- the buffer

  class ParseBuffer {
    const content: Bytes
    var offset: nat
    var depth: nat

    ghost predicate Valid()
      reads this
    {
      Terminated(content) && offset <= |content|
    }

    constructor (text: Bytes)
      requires NoNul(text)
      ensures Valid() && content == text + [NUL] && offset == 0 && depth == 0
    {
      content := text + [NUL];
      offset := 0;
      depth := 0;
    }

    /** `buffer_skip_whitespace`: the terminator counts as blank, so the loop runs over it and the
        last line steps back onto it. */
    method SkipWhitespace()
      requires Valid()
      modifies this`offset
      ensures Valid() && offset < |content| && (old(offset) < |content| ==> old(offset) <= offset)
      ensures Rest(content, offset) == Parsing.SkipBlank(Rest(content, old(offset)))
    {
      while offset < |content| && content[offset] <= SPACE
        invariant old(offset) <= offset <= |content|
        invariant Parsing.SkipBlank(Rest(content, offset)) == Parsing.SkipBlank(Rest(content, old(offset)))
      {
        offset := offset + 1;
      }
      if offset == |content| {
        offset := offset - 1;
      }
    }

    /** `skip_utf8_bom` at the start of the buffer. */
    method SkipByteOrderMark()
      requires Valid() && offset == 0
      modifies this`offset
      ensures Valid() && offset < |content|
      ensures Rest(content, offset) == Parsing.SkipMark(Rest(content, 0))
    {
      MarkOfRest(content);
      if offset + 4 < |content| && content[offset..offset + 3] == [0xEF, 0xBB, 0xBF] {
        offset := offset + 3;
      }
    }

    /** The first pass of `parse_string`: where the literal ends and how many bytes escapes hide. A
        backslash is never the last byte of the buffer, which is the terminator. */
    method FindEnd(start: nat) returns (found: bool, end: nat, skipped: nat)
      requires Terminated(content) && 0 < start < |content|
      ensures match Strings.Scan(Rest(content, start))
              case Unclosed => !found
              case Scanned(body, rest) =>
                && found && start <= end < |content| - 1 && content[end] == QUOTE
                && body == content[start..end] && rest == Rest(content, end + 1)
                && Strings.RawBody(body) && skipped + Strings.Budget(body, false) == |body|
    {
      end, skipped := start, 0;
      ghost var all := Strings.Scan(Rest(content, start));
      while end < |content| && content[end] != QUOTE
        invariant start <= end <= |content|
        invariant all == Strings.Put(content[start..end], Strings.Scan(Rest(content, end)))
        invariant Strings.Scan(Rest(content, end)).Scanned? ==>
            && Strings.RawBody(content[start..end])
            && skipped + Strings.Budget(content[start..end], false) == end - start
        decreases |content| - end
      {
        ghost var from := end;
        if content[end] == BACKSLASH {
          skipped := skipped + 1;
          end := end + 1;
        }
        end := end + 1;
        ScanStep(content, start, from, end);
      }
      found := end < |content| && content[end] == QUOTE;
      assert content[start..end] + [] == content[start..end];
    }

    /** One round of the second pass: how many bytes are read, zero for a malformed escape, and how
        many are written. */
    method UnescapeUnit(at: nat, end: nat, output: array<Byte>, written: nat) returns (length: nat, n: nat)
      requires at < end < |content| && written < output.Length
      requires var unit := Strings.FirstUnit(content[at..end + 1]);
               unit.Unit? ==> written + |unit.out| < output.Length
      modifies output
      ensures match Strings.FirstUnit(content[at..end + 1])
              case BadUnit => length == 0
              case Unit(l, out) =>
                && length == l && n == |out| && written + n <= output.Length
                && output[..written + n] == old(output[..written]) + out
    {
      ghost var s := content[at..end + 1];
      assert s[0] == content[at] && s[1] == content[at + 1];
      length, n := 1, 1;
      if content[at] != BACKSLASH {
        output[written] := content[at];
        return;
      }
      length := 2;
      var e := Strings.SimpleEscape(content[at + 1]);
      if content[at + 1] == LETTER_U {
        var point;
        length, point := ReadLiteral(content, at, end);
        if length > 0 {
          n := EncodeUtf8(point, output, written);
        }
      } else if e.Some? {
        output[written] := e.value;
      } else {
        length := 0;
      }
    }

    /** A round together with what it means for the rest of the pass. */
    method UnescapeRound(at: nat, end: nat, output: array<Byte>, written: nat, ghost escaped: bool)
      returns (length: nat, n: nat, ghost out: Bytes, ghost after: bool, ghost room: nat)
      requires at < end < |content| && Strings.RawTail(content[at..end], escaped)
      requires written + Strings.Budget(content[at..end], escaped) < output.Length
      modifies output
      ensures length == 0 ==> Strings.Decode(content[at..end + 1]) == Strings.Malformed(end + 1 - at)
      ensures length > 0 ==>
                && at + length <= end + 1 && n == |out| && n + room <= Strings.Budget(content[at..end], escaped)
                && Strings.Decode(content[at..end + 1]) ==
                   Strings.Emit(out, Strings.Decode(content[at + length..end + 1]))
                && output[..written + n] == old(output[..written]) + out
      ensures length > 0 && at + length <= end ==>
                && Strings.RawTail(content[at + length..end], after)
                && room == Strings.Budget(content[at + length..end], after)
    {
      ghost var unit := Strings.FirstUnit(content[at..end + 1]);
      after, out, room := false, [], 0;
      if unit.Unit? {
        after := UnitFits(content, at, end, escaped);
        out := unit.out;
        DecodeStep(content, at, end);
        if at + unit.length <= end {
          room := Strings.Budget(content[at + unit.length..end], after);
        }
      } else {
        Strings.DecodeFirst(content[at..end + 1]);
      }
      length, n := UnescapeUnit(at, end, output, written);
    }

    /** The second pass of `parse_string`: it decodes the body between `start` and `end` into a
        buffer of the size the first pass has worked out, and never writes outside of it, also
        when a malformed escape stops it half way. */
    method Unescape(start: nat, end: nat, output: array<Byte>) returns (ok: bool, stop: nat, written: nat)
      requires start <= end < |content| && content[end] == QUOTE && Strings.RawBody(content[start..end])
      requires Strings.Budget(content[start..end], false) < output.Length
      modifies output
      ensures match Strings.Decode(content[start..end + 1])
              case Decoded(out) =>
                ok && written == |out| < output.Length && output[..written] == out && output[written] == NUL
              case Malformed(left) => !ok && left <= end + 1 - start && stop == end + 1 - left
    {
      ghost var total := Strings.Budget(content[start..end], false);
      ghost var all := Strings.Decode(content[start..end + 1]);
      ghost var escaped, room, rest := false, total, all;
      stop, written := start, 0;
      Strings.EmitNone(all);
      while stop < end
        invariant start <= stop <= end + 1 && written + room <= total
        invariant all == Strings.Emit(output[..written], rest) && rest == Strings.Decode(content[stop..end + 1])
        invariant stop <= end ==>
            Strings.RawTail(content[stop..end], escaped) && room == Strings.Budget(content[stop..end], escaped)
        decreases end + 1 - stop
      {
        ghost var done, out := output[..written], [];
        var length, n;
        length, n, out, escaped, room := UnescapeRound(stop, end, output, written, escaped);
        if length == 0 {
          return false, stop, written;
        }
        rest := Strings.Decode(content[stop + length..end + 1]);
        Strings.EmitEmit(done, out, rest);
        stop, written := stop + length, written + n;
      }
      assert all == Strings.Decoded(output[..written]);
      ok := true;
      output[written] := NUL;
    }

    /** `parse_string` */
    method ParseString() returns (ok: bool, text: Bytes)
      requires Valid() && offset < |content|
      modifies this`offset
      ensures Valid() && (ok ==> old(offset) < offset)
      ensures match Parsing.ParseString(Rest(content, old(offset)))
              case Ok(s, rest) => ok && text == s && offset < |content| && Rest(content, offset) == rest
              case Fail(at) => !ok && Rest(content, offset) == at
    {
      text := [];
      if content[offset] != QUOTE {
        offset := offset + 1;
        return false, [];
      }
      var found, end, skipped := FindEnd(offset + 1);
      if !found {
        offset := offset + 1;
        return false, [];
      }
      ok, text := DecodeBody(end, skipped);
    }

    /** The rest of `parse_string`, behind the first pass. */
    method DecodeBody(end: nat, skipped: nat) returns (ok: bool, text: Bytes)
      requires Valid() && offset < end < |content| - 1 && content[offset] == QUOTE == content[end]
      requires Strings.Scan(Rest(content, offset + 1)) ==
               Strings.Scanned(content[offset + 1..end], Rest(content, end + 1))
      requires Strings.RawBody(content[offset + 1..end])
      requires skipped + Strings.Budget(content[offset + 1..end], false) == end - offset - 1
      modifies this`offset
      ensures Valid() && old(offset) < offset < |content|
      ensures Parsing.ParseString(Rest(content, old(offset))) ==
              if ok then Parsing.Ok(text, Rest(content, offset)) else Parsing.Fail(Rest(content, offset))
    {
      ghost var start := offset + 1;
      var allocationLength := end - offset - skipped;
      var output := new Byte[allocationLength + 1];
      var decoded, stop, written := Unescape(offset + 1, end, output);
      BodyResult(content, start, end);
      if !decoded {
        offset := stop;
        return false, [];
      }
      text := output[..written];
      offset := end;
      offset := offset + 1;
      ok := true;
    }

    /** The loop of `parse_number` that copies the number for `strtod`. */
    method CopyToken() returns (token: Bytes)
      requires Valid() && offset < |content|
      ensures token == Numbers.Token(Rest(content, offset), Numbers.TOKEN_MAX)
      ensures offset + |token| < |content|
    {
      token := [];
      var i := 0;
      ghost var all := Numbers.Token(Rest(content, offset), Numbers.TOKEN_MAX);
      ghost var rest := all;
      assert token + rest == all;
      while i < Numbers.TOKEN_MAX && offset + i < |content| && Numbers.IsNumberChar(content[offset + i])
        invariant 0 <= i <= Numbers.TOKEN_MAX && |token| == i && offset + i < |content|
        invariant all == token + rest && rest == Numbers.Token(Rest(content, offset + i), Numbers.TOKEN_MAX - i)
      {
        var b := content[offset + i];
        ghost var more := Numbers.Token(Rest(content, offset + i + 1), Numbers.TOKEN_MAX - i - 1);
        assert rest == [b] + more;
        Regroup(token, b, more);
        token, rest := token + [b], more;
        i := i + 1;
      }
      assert rest == [] && token + [] == token;
    }

    /** `parse_number`, with `strtod` as a function. */
    method ParseNumber() returns (ok: bool, item: Json)
      requires Valid() && offset < |content|
      modifies this`offset
      ensures Valid() && (ok ==> old(offset) < offset)
      ensures match Parsing.ParseNumber(Rest(content, old(offset)))
              case Ok(v, rest) => ok && item == v && offset < |content| && Rest(content, offset) == rest
              case Fail(at) => !ok && Rest(content, offset) == at
    {
      item := Null;
      var token := CopyToken();
      var number := Numbers.Strtod(token);
      if number.NoNumber? {
        return false, Null;
      }
      RestDrop(content, offset, number.length);
      item := Number(number.value);
      offset := offset + number.length;
      ok := true;
    }

    /** `parse_value` */
    method ParseValue() returns (ok: bool, item: Json)
      requires Valid() && offset < |content|
      modifies this
      ensures Valid() && (ok ==> depth == old(depth) && old(offset) < offset)
      ensures match Parsing.ParseValue(Rest(content, old(offset)), old(depth))
              case Ok(v, rest) => ok && item == v && offset < |content| && Rest(content, offset) == rest
              case Fail(at) => !ok && Rest(content, offset) == at
      decreases |content| - offset, 1
    {
      item := Null;
      FixedTexts(content, offset);
      Words(content, offset, depth);
      if offset + 4 <= |content| && content[offset..offset + 4] == NULL_TEXT {
        offset := offset + 4;
        return true, Null;
      }
      if offset + 5 <= |content| && content[offset..offset + 5] == FALSE_TEXT {
        offset := offset + 5;
        return true, False;
      }
      if offset + 4 <= |content| && content[offset..offset + 4] == TRUE_TEXT {
        offset := offset + 4;
        return true, True;
      }
      Dispatch(content, offset, depth);
      if content[offset] == QUOTE {
        var text;
        ok, text := ParseString();
        return ok, String(text);
      }
      if content[offset] == MINUS || Numbers.IsDigit(content[offset]) {
        ok, item := ParseNumber();
        return ok, item;
      }
      if content[offset] == OPEN_BRACKET {
        ok, item := ParseArray();
        return ok, item;
      }
      if content[offset] == OPEN_BRACE {
        ok, item := ParseObject();
        return ok, item;
      }
      return false, Null;
    }

    /** `parse_array` at its bracket. The blank skip always ends inside the buffer, so the checks for
        its end are left out. */
    method ParseArray() returns (ok: bool, item: Json)
      requires Valid() && offset < |content| && content[offset] == OPEN_BRACKET
      modifies this
      ensures Valid() && (ok ==> depth == old(depth) && old(offset) < offset)
      ensures match Parsing.ParseArray(Rest(content, old(offset)), old(depth))
              case Ok(v, rest) => ok && item == v && offset < |content| && Rest(content, offset) == rest
              case Fail(at) => !ok && Rest(content, offset) == at
      decreases |content| - offset, 0
    {
      item := Null;
      if depth >= NESTING_LIMIT {
        return false, Null;
      }
      depth := depth + 1;
      offset := offset + 1;
      SkipWhitespace();
      ArrayCases(content, old(offset), offset, old(depth));
      var items := [];
      if content[offset] == CLOSE_BRACKET {
        offset := offset + 1;
      } else {
        offset := offset - 1;
        ok, items := ParseElements(old(offset));
        if !ok {
          return false, Null;
        }
      }
      depth := depth - 1;
      return true, Array(items);
    }

    /** The loop of `parse_array`, starting one byte in front of the first element. */
    method ParseElements(ghost from: nat) returns (ok: bool, items: seq<Json>)
      requires Valid() && from <= offset && offset + 1 < |content|
      modifies this
      ensures Valid() && (ok ==> depth == old(depth) && old(offset) < offset)
      ensures match Parsing.ParseElements(Rest(content, old(offset) + 1), old(depth))
              case Ok(vs, rest) => ok && items == vs && offset < |content| && Rest(content, offset) == rest
              case Fail(at) => !ok && Rest(content, offset) == at
      decreases |content| - from, 0, 2
    {
      items := [];
      ghost var all := Parsing.ParseElements(Rest(content, offset + 1), depth);
      GlueNone(all);
      var more := true;
      while more
        invariant Valid() && old(offset) <= offset < |content| && depth == old(depth)
        invariant more ==>
            offset + 1 < |content| && all == Glue(items, Parsing.ParseElements(Rest(content, offset + 1), depth))
        invariant !more && content[offset] == CLOSE_BRACKET ==>
            old(offset) < offset < |content| - 1 && all == Parsing.Ok(items, Rest(content, offset + 1))
        invariant !more && content[offset] != CLOSE_BRACKET ==> all == Parsing.Fail(Rest(content, offset))
        decreases more, |content| - offset
      {
        var element;
        ok, element := ElementRound(from, items, all);
        if !ok {
          return false, [];
        }
        items := items + [element];
        more := content[offset] == COMMA;
      }
      ok := content[offset] == CLOSE_BRACKET;
      if ok {
        offset := offset + 1;
      } else {
        items := [];
      }
    }

    /** One round of that loop, the blanks behind the element included. */
    method ElementRound(ghost from: nat, ghost items: seq<Json>, ghost all: Parsing.Parsed<seq<Json>>)
      returns (ok: bool, element: Json)
      requires Valid() && from <= offset && offset + 1 < |content|
      requires all == Glue(items, Parsing.ParseElements(Rest(content, offset + 1), depth))
      modifies this
      ensures Valid() && (ok ==> depth == old(depth) && old(offset) < offset < |content|)
      ensures !ok || content[offset] !in {COMMA, CLOSE_BRACKET} ==> all == Parsing.Fail(Rest(content, offset))
      ensures ok && content[offset] == COMMA ==>
                && offset + 1 < |content|
                && all == Glue(items + [element], Parsing.ParseElements(Rest(content, offset + 1), depth))
      ensures ok && content[offset] == CLOSE_BRACKET ==>
                offset + 1 < |content| && all == Parsing.Ok(items + [element], Rest(content, offset + 1))
      decreases |content| - from, 0, 0
    {
      offset := offset + 1;
      ghost var cur, d := Rest(content, offset), depth;
      SkipWhitespace();
      ok, element := ParseValue();
      if ok {
        ghost var rest := Rest(content, offset);
        SkipWhitespace();
        ElementsStep(content, cur, d, element, rest, offset);
        GlueStep(items, element, Parsing.ParseElements(Rest(content, offset + 1), d));
      }
    }

    /** `parse_object` at its brace. */
    method ParseObject() returns (ok: bool, item: Json)
      requires Valid() && offset < |content| && content[offset] == OPEN_BRACE
      modifies this
      ensures Valid() && (ok ==> depth == old(depth) && old(offset) < offset)
      ensures match Parsing.ParseObject(Rest(content, old(offset)), old(depth))
              case Ok(v, rest) => ok && item == v && offset < |content| && Rest(content, offset) == rest
              case Fail(at) => !ok && Rest(content, offset) == at
      decreases |content| - offset, 0
    {
      item := Null;
      if depth >= NESTING_LIMIT {
        return false, Null;
      }
      depth := depth + 1;
      offset := offset + 1;
      SkipWhitespace();
      ObjectCases(content, old(offset), offset, old(depth));
      var members := [];
      if content[offset] == CLOSE_BRACE {
        offset := offset + 1;
      } else {
        offset := offset - 1;
        ok, members := ParsePairs(old(offset));
        if !ok {
          return false, Null;
        }
      }
      depth := depth - 1;
      return true, Object(members);
    }

    /** The loop of `parse_object`, starting one byte in front of the first member. */
    method ParsePairs(ghost from: nat) returns (ok: bool, members: seq<Member>)
      requires Valid() && from <= offset && offset + 1 < |content|
      modifies this
      ensures Valid() && (ok ==> depth == old(depth) && old(offset) < offset)
      ensures match Parsing.ParsePairs(Rest(content, old(offset) + 1), old(depth))
              case Ok(ms, rest) => ok && members == ms && offset < |content| && Rest(content, offset) == rest
              case Fail(at) => !ok && Rest(content, offset) == at
      decreases |content| - from, 0, 3
    {
      members := [];
      ghost var all := Parsing.ParsePairs(Rest(content, offset + 1), depth);
      GlueNone(all);
      var more := true;
      while more
        invariant Valid() && old(offset) <= offset < |content| && depth == old(depth)
        invariant more ==>
            offset + 1 < |content| && all == Glue(members, Parsing.ParsePairs(Rest(content, offset + 1), depth))
        invariant !more && content[offset] == CLOSE_BRACE ==>
            old(offset) < offset < |content| - 1 && all == Parsing.Ok(members, Rest(content, offset + 1))
        invariant !more && content[offset] != CLOSE_BRACE ==> all == Parsing.Fail(Rest(content, offset))
        decreases more, |content| - offset
      {
        var member;
        ok, member := PairRound(from, members, all);
        if !ok {
          return false, [];
        }
        members := members + [member];
        more := content[offset] == COMMA;
      }
      ok := content[offset] == CLOSE_BRACE;
      if ok {
        offset := offset + 1;
      } else {
        members := [];
      }
    }

    /** One round of that loop, the blanks behind the member included. */
    method PairRound(ghost from: nat, ghost members: seq<Member>, ghost all: Parsing.Parsed<seq<Member>>)
      returns (ok: bool, member: Member)
      requires Valid() && from <= offset && offset + 1 < |content|
      requires all == Glue(members, Parsing.ParsePairs(Rest(content, offset + 1), depth))
      modifies this
      ensures Valid() && (ok ==> depth == old(depth) && old(offset) < offset < |content|)
      ensures !ok || content[offset] !in {COMMA, CLOSE_BRACE} ==> all == Parsing.Fail(Rest(content, offset))
      ensures ok && content[offset] == COMMA ==>
                && offset + 1 < |content|
                && all == Glue(members + [member], Parsing.ParsePairs(Rest(content, offset + 1), depth))
      ensures ok && content[offset] == CLOSE_BRACE ==>
                offset + 1 < |content| && all == Parsing.Ok(members + [member], Rest(content, offset + 1))
      decreases |content| - from, 0, 2
    {
      ghost var cur, d := Rest(content, offset + 1), depth;
      ok, member := ParsePair(from);
      if ok {
        ghost var rest := Rest(content, offset);
        SkipWhitespace();
        PairsStep(content, cur, d, member, rest, offset, members);
      } else {
        PairsFail(cur, d, Rest(content, offset));
      }
    }

    /** The body of the loop of `parse_object` up to the value of the member, starting one byte in
        front of it. */
    method ParsePair(ghost from: nat) returns (ok: bool, member: Member)
      requires Valid() && from <= offset && offset + 1 < |content|
      modifies this
      ensures Valid() && (ok ==> depth == old(depth) && old(offset) < offset)
      ensures match Parsing.ParsePair(Rest(content, old(offset) + 1), old(depth))
              case Ok(m, rest) => ok && member == m && offset < |content| && Rest(content, offset) == rest
              case Fail(at) => !ok && Rest(content, offset) == at
      decreases |content| - from, 0, 1
    {
      member := Member([], Null);
      offset := offset + 1;
      ghost var cur, d := Rest(content, offset), depth;
      SkipWhitespace();
      ghost var start := Rest(content, offset);
      assert Parsing.ParsePair(cur, d) == Parsing.ParseMember(start, d);
      var key;
      ok, key := ParseString();
      if !ok {
        return false, member;
      }
      ok, member := ParseAfterKey(from, key, start);
    }

    /** A member behind its key: the colon and the value. */
    method ParseAfterKey(ghost from: nat, key: Bytes, ghost start: Input) returns (ok: bool, member: Member)
      requires Valid() && from < offset < |content|
      requires Parsing.ParseString(start) == Parsing.Ok(key, Rest(content, offset))
      modifies this
      ensures Valid() && (ok ==> depth == old(depth) && old(offset) < offset < |content|)
      ensures Parsing.ParseMember(start, old(depth)) ==
              if ok then Parsing.Ok(member, Rest(content, offset)) else Parsing.Fail(Rest(content, offset))
      decreases |content| - from, 0, 0
    {
      member := Member(key, Null);
      SkipWhitespace();
      ByteOfRest(content, offset);
      if content[offset] != COLON {
        return false, member;
      }
      offset := offset + 1;
      SkipWhitespace();
      var value;
      ok, value := ParseValue();
      member := Member(key, value);
    }
  }

  /** `cJSON_ParseWithOpts` on a C string: the value and the position behind it, or the position the
      error is reported at, which is never behind the terminator. */
  method ParseWithOpts(text: Bytes, requireEnd: bool) returns (ok: bool, item: Json, position: nat)
    requires NoNul(text)
    ensures match Parsing.ParseText(text, requireEnd)
            case Ok(v, rest) => ok && item == v && position + Length(rest) == |text|
            case Fail(at) => !ok && position + Length(at) == |text|
  {
    var buffer := new ParseBuffer(text);
    ghost var c := buffer.content;
    assert text[0..] == text;
    RestOfText(text, 0);
    buffer.SkipByteOrderMark();
    buffer.SkipWhitespace();
    ok, item := buffer.ParseValue();
    if ok && requireEnd {
      buffer.SkipWhitespace();
      ok := buffer.content[buffer.offset] == NUL;
    }
    position := if buffer.offset < |buffer.content| then buffer.offset else |buffer.content| - 1;
    RestLength(c, position);
  }

  lemma MarkOfRest(c: Bytes)
    requires Terminated(c)
    ensures Parsing.SkipMark(Rest(c, 0)) ==
            Rest(c, if 4 < |c| && c[..3] == [0xEF, 0xBB, 0xBF] then 3 else 0)
  {
    if 3 < |c| {
      assert c[..3] == [c[0], c[1], c[2]];
      assert Rest(c, 0).rest == Rest(c, 1) && Rest(c, 1).rest == Rest(c, 2) && Rest(c, 2).rest == Rest(c, 3);
    } else if 2 < |c| {
      assert Rest(c, 0).rest == Rest(c, 1) && Rest(c, 1).rest == Rest(c, 2) == End;
    }
  }

  /** The items already read in front of those still to come. */
  function Glue<T>(items: seq<T>, r: Parsing.Parsed<seq<T>>): Parsing.Parsed<seq<T>> {
    match r
    case Ok(more, rest) => Parsing.Ok(items + more, rest)
    case Fail(_) => r
  }

  /** `Strings.UnitFits` in terms of positions. */
  lemma UnitFits(c: Bytes, at: nat, end: nat, escaped: bool) returns (after: bool)
    requires at < end < |c| && Strings.RawTail(c[at..end], escaped) && Strings.FirstUnit(c[at..end + 1]).Unit?
    ensures var unit := Strings.FirstUnit(c[at..end + 1]);
            && at + unit.length <= end + 1 && |unit.out| <= Strings.Budget(c[at..end], escaped)
            && (at + unit.length <= end ==>
                && Strings.RawTail(c[at + unit.length..end], after)
                && |unit.out| + Strings.Budget(c[at + unit.length..end], after) <= Strings.Budget(c[at..end], escaped))
  {
    var s := c[at..end + 1];
    assert s[..|s| - 1] == c[at..end];
    after := Strings.UnitFits(s, escaped);
    var n := Strings.FirstUnit(s).length;
    assert n < |s| ==> s[n..|s| - 1] == c[at + n..end];
  }

  /** What `parse_string` makes of a literal that the first pass has delimited. */
  lemma BodyResult(c: Bytes, start: nat, end: nat)
    requires 0 < start <= end < |c| - 1 && c[start - 1] == QUOTE == c[end]
    requires Strings.Scan(Rest(c, start)) == Strings.Scanned(c[start..end], Rest(c, end + 1))
    ensures var d := Strings.Decode(c[start..end + 1]);
            && (d.Decoded? ==> Parsing.ParseString(Rest(c, start - 1)) == Parsing.Ok(d.out, Rest(c, end + 1)))
            && (d.Malformed? ==>
                  && d.left <= end + 1 - start
                  && Parsing.ParseString(Rest(c, start - 1)) == Parsing.Fail(Rest(c, end + 1 - d.left)))
  {
    assert c[start..end] + [QUOTE] == c[start..end + 1];
    var d := Strings.Decode(c[start..end + 1]);
    if d.Malformed? {
      RestDrop(c, start, end + 1 - start - d.left);
    }
  }

  /** One round of the second pass. */
  lemma DecodeStep(c: Bytes, at: nat, end: nat)
    requires at < end < |c| && Strings.FirstUnit(c[at..end + 1]).Unit?
    ensures var unit := Strings.FirstUnit(c[at..end + 1]);
            Strings.Decode(c[at..end + 1]) == Strings.Emit(unit.out, Strings.Decode(c[at + unit.length..end + 1]))
  {
    var s := c[at..end + 1];
    Strings.DecodeFirst(s);
    assert s[Strings.FirstUnit(s).length..] == c[at + Strings.FirstUnit(s).length..end + 1];
  }

  /** One round of the first pass. */
  lemma ScanStep(c: Bytes, start: nat, from: nat, to: nat)
    requires Terminated(c) && start <= from < |c| && c[from] != QUOTE
    requires to == (if c[from] == BACKSLASH then from + 2 else from + 1) && to <= |c|
    ensures Strings.Put(c[start..from], Strings.Scan(Rest(c, from))) ==
            Strings.Put(c[start..to], Strings.Scan(Rest(c, to)))
    ensures Strings.Scan(Rest(c, to)).Scanned? ==> Strings.Scan(Rest(c, from)).Scanned?
    ensures Strings.RawBody(c[start..from]) && Strings.Scan(Rest(c, to)).Scanned? ==>
              && Strings.RawBody(c[start..to])
              && Strings.Budget(c[start..to], false) == Strings.Budget(c[start..from], false) + 1
  {
    var done, unit := c[start..from], c[from..to];
    assert c[start..to] == done + unit;
    assert Strings.Scan(Rest(c, from)) == Strings.Put(unit, Strings.Scan(Rest(c, to))) by { ScanUnit(c, from, to); }
    Strings.PutPut(done, unit, Strings.Scan(Rest(c, to)));
    assert Strings.RawBody(unit) && Strings.Budget(unit, false) == 1 by { UnitRaw(unit); }
    if Strings.RawBody(done) {
      Strings.RawAppend(done, false, unit);
    }
  }

  lemma ScanUnit(c: Bytes, from: nat, to: nat)
    requires Terminated(c) && from < |c| && c[from] != QUOTE
    requires to == (if c[from] == BACKSLASH then from + 2 else from + 1) && to <= |c|
    ensures Strings.Scan(Rest(c, from)) == Strings.Put(c[from..to], Strings.Scan(Rest(c, to)))
  {
    if c[from] == BACKSLASH {
      assert c[from..to] == [c[from], c[from + 1]];
      assert Rest(c, from).rest == Rest(c, from + 1);
    } else {
      assert c[from..to] == [c[from]];
    }
  }

  lemma UnitRaw(unit: Bytes)
    requires |unit| == 1 || (|unit| == 2 && unit[0] == BACKSLASH)
    requires |unit| == 1 ==> unit[0] != BACKSLASH && unit[0] != QUOTE
    ensures Strings.RawBody(unit) && Strings.Budget(unit, false) == 1
  {
    if |unit| == 2 {
      assert Strings.RawTail(unit[1..], true) && Strings.Budget(unit[1..], true) == 1;
    }
  }

  // ----- connecting positions and rests


  lemma ByteOfRest(c: Bytes, o: nat)
    requires Terminated(c) && o < |c|
    ensures forall b: Byte :: b != NUL ==> (Parsing.StartsWith(Rest(c, o), b) <==> c[o] == b)
    ensures c[o] != NUL ==> o + 1 < |c| && Rest(c, o).rest == Rest(c, o + 1)
  {
  }

  lemma Words(c: Bytes, o: nat, d: nat)
    requires Terminated(c) && o < |c|
    ensures Parsing.StartsWith4(Rest(c, o), 116, 114, 117, 101) ==>
              Parsing.ParseValue(Rest(c, o), d) == Parsing.Ok(True, Parsing.After4(Rest(c, o)))
    ensures Parsing.StartsWith(Rest(c, o), 102) && Parsing.StartsWith4(Rest(c, o).rest, 97, 108, 115, 101) ==>
              Parsing.ParseValue(Rest(c, o), d) == Parsing.Ok(False, Parsing.After4(Rest(c, o).rest))
  {
    if Parsing.StartsWith(Rest(c, o), 116) || Parsing.StartsWith(Rest(c, o), 102) {
      assert Parsing.ParseValue(Rest(c, o), d) == Parsing.ParseOther(Rest(c, o), d);
    }
  }

  /** How `ParseValue` goes on when no fixed text is there. */
  lemma Dispatch(c: Bytes, o: nat, d: nat)
    requires Terminated(c) && o < |c|
    requires !(o + 4 <= |c| && c[o..o + 4] == NULL_TEXT) && !(o + 4 <= |c| && c[o..o + 4] == TRUE_TEXT)
    requires !(o + 5 <= |c| && c[o..o + 5] == FALSE_TEXT)
    ensures c[o] == QUOTE ==>
              Parsing.ParseValue(Rest(c, o), d) ==
              match Parsing.ParseString(Rest(c, o))
              case Ok(text, rest) => Parsing.Ok(String(text), rest)
              case Fail(at) => Parsing.Fail(at)
    ensures c[o] == MINUS || Numbers.IsDigit(c[o]) ==>
              Parsing.ParseValue(Rest(c, o), d) == Parsing.ParseNumber(Rest(c, o))
    ensures c[o] == OPEN_BRACKET ==>
              Parsing.ParseValue(Rest(c, o), d) == Parsing.ParseArray(Rest(c, o), d)
    ensures c[o] == OPEN_BRACE ==>
              Parsing.ParseValue(Rest(c, o), d) == Parsing.ParseObject(Rest(c, o), d)
    ensures c[o] != QUOTE && c[o] != MINUS && !Numbers.IsDigit(c[o]) && c[o] != OPEN_BRACKET && c[o] != OPEN_BRACE ==>
              Parsing.ParseValue(Rest(c, o), d) == Parsing.Fail(Rest(c, o))
  {
    FixedTexts(c, o);
    ByteOfRest(c, o);
    var s := Rest(c, o);
    assert Parsing.ParseValue(s, d) == Parsing.ParseOther(s, d) == Parsing.ParseByFirst(s, d);
  }

  lemma FixedTexts(c: Bytes, o: nat)
    requires Terminated(c) && o < |c|
    ensures Parsing.StartsWith4(Rest(c, o), 110, 117, 108, 108) <==> o + 4 <= |c| && c[o..o + 4] == NULL_TEXT
    ensures Parsing.StartsWith4(Rest(c, o), 116, 114, 117, 101) <==> o + 4 <= |c| && c[o..o + 4] == TRUE_TEXT
    ensures Parsing.StartsWith(Rest(c, o), 102) && Parsing.StartsWith4(Rest(c, o).rest, 97, 108, 115, 101) <==>
            o + 5 <= |c| && c[o..o + 5] == FALSE_TEXT
    ensures Parsing.StartsWith4(Rest(c, o), 110, 117, 108, 108) ||
            Parsing.StartsWith4(Rest(c, o), 116, 114, 117, 101) ==>
              o + 4 < |c| && Parsing.After4(Rest(c, o)) == Rest(c, o + 4)
    ensures Parsing.StartsWith(Rest(c, o), 102) && Parsing.StartsWith4(Rest(c, o).rest, 97, 108, 115, 101) ==>
              o + 5 < |c| && Parsing.After4(Rest(c, o).rest) == Rest(c, o + 5)
  {
    FixedText4(c, o, 110, 117, 108, 108);
    FixedText4(c, o, 116, 114, 117, 101);
    if o + 1 < |c| {
      FixedText4(c, o + 1, 97, 108, 115, 101);
    }
    if o + 5 <= |c| {
      FiveBytes(c[o..o + 5]);
      assert c[o..o + 5][1..] == c[o + 1..o + 5];
    }
  }

  lemma FiveBytes(s: Bytes)
    requires |s| == 5
    ensures s == FALSE_TEXT <==> s[0] == 102 && s[1..] == [97, 108, 115, 101]
  {
    if s[0] == 102 && s[1..] == [97, 108, 115, 101] {
      assert s == [s[0]] + s[1..];
    }
  }

  lemma FixedText4(c: Bytes, o: nat, w: Byte, x: Byte, y: Byte, z: Byte)
    requires Terminated(c) && o < |c| && w != NUL && x != NUL && y != NUL && z != NUL
    ensures Parsing.StartsWith4(Rest(c, o), w, x, y, z) <==> o + 4 <= |c| && c[o..o + 4] == [w, x, y, z]
    ensures Parsing.StartsWith4(Rest(c, o), w, x, y, z) ==>
              o + 4 < |c| && Parsing.After4(Rest(c, o)) == Rest(c, o + 4)
  {
    if o + 4 <= |c| {
      assert c[o..o + 4] == [c[o], c[o + 1], c[o + 2], c[o + 3]];
    }
    ByteOfRest(c, o);
    if c[o] != NUL {
      ByteOfRest(c, o + 1);
      if c[o + 1] != NUL {
        ByteOfRest(c, o + 2);
        if c[o + 2] != NUL {
          ByteOfRest(c, o + 3);
        }
      }
    }
  }

  lemma Regroup(a: Bytes, b: Byte, c: Bytes)
    ensures a + ([b] + c) == a + [b] + c
  {
  }

  lemma SkipTwice(s: Input)
    ensures Parsing.SkipBlank(Parsing.SkipBlank(s)) == Parsing.SkipBlank(s)
  {
  }

  /** Blanks in front of the first element do not matter. */
  lemma SkipToElement(s: Input, d: nat)
    ensures Parsing.ParseElements(Parsing.SkipBlank(s), d) == Parsing.ParseElements(s, d)
  {
    SkipTwice(s);
  }

  function BoxArray(r: Parsing.Parsed<seq<Json>>): Parsing.Parsed<Json> {
    if r.Ok? then Parsing.Ok(Array(r.value), r.rest) else Parsing.Fail(r.at)
  }

  /** `ParseArray` behind the blanks that follow its opening. */
  lemma ArrayCases(c: Bytes, o: nat, inner: nat, d: nat)
    requires Terminated(c) && o + 1 < |c| && c[o] == OPEN_BRACKET && d < NESTING_LIMIT
    requires inner < |c| && Rest(c, inner) == Parsing.SkipBlank(Rest(c, o + 1))
    ensures c[inner] == CLOSE_BRACKET ==>
              inner + 1 < |c| && Parsing.ParseArray(Rest(c, o), d) == Parsing.Ok(Array([]), Rest(c, inner + 1))
    ensures c[inner] != CLOSE_BRACKET ==>
              Parsing.ParseArray(Rest(c, o), d) == BoxArray(Parsing.ParseElements(Rest(c, inner), d + 1))
  {
    ByteOfRest(c, inner);
    SkipToElement(Rest(c, o + 1), d + 1);
  }

  lemma SkipToPair(s: Input, d: nat)
    ensures Parsing.ParsePairs(Parsing.SkipBlank(s), d) == Parsing.ParsePairs(s, d)
  {
    SkipTwice(s);
    assert Parsing.ParsePair(Parsing.SkipBlank(s), d) == Parsing.ParsePair(s, d);
  }

  function BoxObject(r: Parsing.Parsed<seq<Member>>): Parsing.Parsed<Json> {
    if r.Ok? then Parsing.Ok(Object(r.value), r.rest) else Parsing.Fail(r.at)
  }

  /** `ParseObject` behind the blanks that follow its opening. */
  lemma ObjectCases(c: Bytes, o: nat, inner: nat, d: nat)
    requires Terminated(c) && o + 1 < |c| && c[o] == OPEN_BRACE && d < NESTING_LIMIT
    requires inner < |c| && Rest(c, inner) == Parsing.SkipBlank(Rest(c, o + 1))
    ensures c[inner] == CLOSE_BRACE ==>
              inner + 1 < |c| && Parsing.ParseObject(Rest(c, o), d) == Parsing.Ok(Object([]), Rest(c, inner + 1))
    ensures c[inner] != CLOSE_BRACE ==>
              Parsing.ParseObject(Rest(c, o), d) == BoxObject(Parsing.ParsePairs(Rest(c, inner), d + 1))
  {
    ByteOfRest(c, inner);
    SkipToPair(Rest(c, o + 1), d + 1);
  }

  lemma ElementsStep(c: Bytes, cur: Input, d: nat, v: Json, rest: Input, o: nat)
    requires Terminated(c) && o < |c| && Parsing.ParseValue(Parsing.SkipBlank(cur), d) == Parsing.Ok(v, rest)
    requires Parsing.SkipBlank(rest) == Rest(c, o)
    ensures c[o] == COMMA ==>
              o + 1 < |c| && Parsing.ParseElements(cur, d) == Glue([v], Parsing.ParseElements(Rest(c, o + 1), d))
    ensures c[o] == CLOSE_BRACKET ==>
              o + 1 < |c| && Parsing.ParseElements(cur, d) == Parsing.Ok([v], Rest(c, o + 1))
    ensures c[o] != COMMA && c[o] != CLOSE_BRACKET ==> Parsing.ParseElements(cur, d) == Parsing.Fail(Rest(c, o))
  {
    ByteOfRest(c, o);
  }

  lemma PairsStep(c: Bytes, cur: Input, d: nat, m: Member, rest: Input, o: nat, members: seq<Member>)
    requires Terminated(c) && o < |c| && Parsing.ParsePair(cur, d) == Parsing.Ok(m, rest)
    requires Parsing.SkipBlank(rest) == Rest(c, o)
    ensures var all := Glue(members, Parsing.ParsePairs(cur, d));
            && (c[o] == COMMA ==>
                o + 1 < |c| && all == Glue(members + [m], Parsing.ParsePairs(Rest(c, o + 1), d)))
            && (c[o] == CLOSE_BRACE ==> o + 1 < |c| && all == Parsing.Ok(members + [m], Rest(c, o + 1)))
            && (c[o] !in {COMMA, CLOSE_BRACE} ==> all == Parsing.Fail(Rest(c, o)))
  {
    ByteOfRest(c, o);
    GlueStep(members, m, Parsing.ParsePairs(Rest(c, o + 1), d));
  }

  lemma PairsFail(cur: Input, d: nat, at: Input)
    requires Parsing.ParsePair(cur, d) == Parsing.Fail(at)
    ensures Parsing.ParsePairs(cur, d) == Parsing.Fail(at)
  {
  }

  lemma GlueNone<T>(r: Parsing.Parsed<seq<T>>)
    ensures Glue([], r) == r
  {
    if r.Ok? {
      assert [] + r.value == r.value;
    }
  }

  lemma GlueStep<T>(items: seq<T>, v: T, r: Parsing.Parsed<seq<T>>)
    ensures Glue(items, Glue([v], r)) == Glue(items + [v], r)
  {
    if r.Ok? {
      assert items + ([v] + r.value) == items + [v] + r.value;
    }
  }
}
