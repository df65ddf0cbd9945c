/** cJSON's parser as functions on what is left to read of a C string. */
module Parsing {
  import opened Octets
  import opened Json
  import Numbers
  import Strings

  /** What was read and what is left, or what was left where the parser gave up. */
  datatype Parsed<+T> = Ok(value: T, rest: Input) | Fail(at: Input)

  /** The result of reading from `s` stays inside `s`, and success consumes something. */
  predicate Inside<T>(s: Input, r: Parsed<T>) {
    match r
    case Ok(_, rest) => Length(rest) < Length(s)
    case Fail(at) => Length(at) <= Length(s)
  }

  predicate StartsWith(s: Input, b: Byte) {
    s.More? && s.byte == b
  }

  /** `buffer_skip_whitespace` */
  function SkipBlank(s: Input): (r: Input)
    ensures Length(r) <= Length(s)
    ensures r.More? ==> r.byte > SPACE
  {
    if s.More? && s.byte <= SPACE then SkipBlank(s.rest) else s
  }

  function ParseString(s: Input): (r: Parsed<Bytes>)
    ensures Inside(s, r)
  {
    if s.End? then Fail(s)
    else if s.byte != QUOTE then Fail(s.rest)
    else
      match Strings.Scan(s.rest)
      case Unclosed => Fail(s.rest)
      case Scanned(body, rest) =>
        match Strings.Decode(body + [QUOTE])
        case Decoded(out) => Ok(out, rest)
        case Malformed(left) => Fail(Drop(s.rest, |body| + 1 - left))
  }

  function ParseNumber(s: Input): (r: Parsed<Json>)
    ensures Inside(s, r)
  {
    match Numbers.Strtod(Numbers.Token(s, Numbers.TOKEN_MAX))
    case NoNumber => Fail(s)
    case Found(v, n) => Ok(Number(v), Drop(s, n))
  }

  predicate StartsWith4(s: Input, a: Byte, b: Byte, c: Byte, d: Byte) {
    && StartsWith(s, a) && StartsWith(s.rest, b)
    && StartsWith(s.rest.rest, c) && StartsWith(s.rest.rest.rest, d)
  }

  function After4(s: Input): (r: Input)
    requires s.More? && s.rest.More? && s.rest.rest.More? && s.rest.rest.rest.More?
    ensures Length(s) == Length(r) + 4
  {
    assert Length(s.rest.rest) == Length(s.rest.rest.rest.rest) + 2;
    s.rest.rest.rest.rest
  }

  /** `parse_value` at nesting depth `d`. */
  function ParseValue(s: Input, d: nat): (r: Parsed<Json>)
    ensures Inside(s, r)
    decreases Length(s), 4
  {
    if StartsWith4(s, 110, 117, 108, 108) then Ok(Null, After4(s)) else ParseOther(s, d)
  }

  /** Any value but `null`. */
  function ParseOther(s: Input, d: nat): (r: Parsed<Json>)
    ensures Inside(s, r)
    decreases Length(s), 3
  {
    if StartsWith(s, 102) && StartsWith4(s.rest, 97, 108, 115, 101) then Ok(False, After4(s.rest))
    else if StartsWith4(s, 116, 114, 117, 101) then Ok(True, After4(s))
    else ParseByFirst(s, d)
  }

  /** The values that their first byte tells apart. */
  function ParseByFirst(s: Input, d: nat): (r: Parsed<Json>)
    ensures Inside(s, r)
    decreases Length(s), 2
  {
    if StartsWith(s, QUOTE) then
      match ParseString(s)
      case Ok(text, rest) => Ok(String(text), rest)
      case Fail(at) => Fail(at)
    else if s.More? && (s.byte == MINUS || Numbers.IsDigit(s.byte)) then ParseNumber(s)
    else if StartsWith(s, OPEN_BRACKET) then ParseArray(s, d)
    else if StartsWith(s, OPEN_BRACE) then ParseObject(s, d)
    else Fail(s)
  }

  /** `parse_array` at an opening bracket. */
  function ParseArray(s: Input, d: nat): (r: Parsed<Json>)
    requires StartsWith(s, OPEN_BRACKET)
    ensures Inside(s, r)
    decreases Length(s), 1
  {
    if d >= NESTING_LIMIT then Fail(s)
    else
      var inside := SkipBlank(s.rest);
      if StartsWith(inside, CLOSE_BRACKET) then Ok(Array([]), inside.rest)
      else
        match ParseElements(s.rest, d + 1)
        case Ok(items, rest) => Ok(Array(items), rest)
        case Fail(at) => Fail(at)
  }

  /** `parse_object` at an opening brace. */
  function ParseObject(s: Input, d: nat): (r: Parsed<Json>)
    requires StartsWith(s, OPEN_BRACE)
    ensures Inside(s, r)
    decreases Length(s), 1
  {
    if d >= NESTING_LIMIT then Fail(s)
    else
      var inside := SkipBlank(s.rest);
      if StartsWith(inside, CLOSE_BRACE) then Ok(Object([]), inside.rest)
      else
        match ParsePairs(s.rest, d + 1)
        case Ok(members, rest) => Ok(Object(members), rest)
        case Fail(at) => Fail(at)
  }

  /** The elements of an array from just behind its bracket or a comma, closing bracket included. */
  function ParseElements(s: Input, d: nat): (r: Parsed<seq<Json>>)
    ensures Inside(s, r)
    decreases Length(s), 5
  {
    match ParseValue(SkipBlank(s), d)
    case Fail(at) => Fail(at)
    case Ok(v, rest) =>
      var next := SkipBlank(rest);
      if StartsWith(next, COMMA) then
        match ParseElements(next.rest, d)
        case Ok(items, rest') => Ok([v] + items, rest')
        case Fail(at) => Fail(at)
      else if StartsWith(next, CLOSE_BRACKET) then Ok([v], next.rest)
      else Fail(next)
  }

  /** One member of an object. */
  function ParsePair(s: Input, d: nat): (r: Parsed<Member>)
    ensures Inside(s, r)
    decreases Length(s), 6
  {
    ParseMember(SkipBlank(s), d)
  }

  function ParseMember(s: Input, d: nat): (r: Parsed<Member>)
    ensures Inside(s, r)
    decreases Length(s), 5
  {
    match ParseString(s)
    case Fail(at) => Fail(at)
    case Ok(key, rest) =>
      var colon := SkipBlank(rest);
      if !StartsWith(colon, COLON) then Fail(colon)
      else
        match ParseValue(SkipBlank(colon.rest), d)
        case Fail(at) => Fail(at)
        case Ok(v, rest') => Ok(Member(key, v), rest')
  }

  /** The members of an object from just behind its brace or a comma, closing brace included. */
  function ParsePairs(s: Input, d: nat): (r: Parsed<seq<Member>>)
    ensures Inside(s, r)
    decreases Length(s), 7
  {
    match ParsePair(s, d)
    case Fail(at) => Fail(at)
    case Ok(m, rest) =>
      var next := SkipBlank(rest);
      if StartsWith(next, COMMA) then
        match ParsePairs(next.rest, d)
        case Ok(members, rest') => Ok([m] + members, rest')
        case Fail(at) => Fail(at)
      else if StartsWith(next, CLOSE_BRACE) then Ok([m], next.rest)
      else Fail(next)
  }

  /** `skip_utf8_bom`: the mark is only looked for when something follows it. */
  function SkipMark(s: Input): (r: Input)
    ensures Length(r) <= Length(s)
  {
    if StartsWith(s, 0xEF) && StartsWith(s.rest, 0xBB) && StartsWith(s.rest.rest, 0xBF) && s.rest.rest.rest.More?
    then assert Length(s.rest) > Length(s.rest.rest.rest); s.rest.rest.rest
    else s
  }

  /** `cJSON_ParseWithOpts`: the value and what is left behind it, or what was left at the position
      the error is reported for. */
  function ParseText(text: Bytes, requireEnd: bool): (r: Parsed<Json>)
    ensures match r
            case Ok(_, rest) => Length(rest) <= |text|
            case Fail(at) => Length(at) <= |text|
  {
    PrependLength(text, End);
    match ParseValue(SkipBlank(SkipMark(Prepend(text, End))), 0)
    case Fail(at) => Fail(at)
    case Ok(v, rest) =>
      if requireEnd then
        var next := SkipBlank(rest);
        if next.End? then Ok(v, next) else Fail(next)
      else Ok(v, rest)
  }
}
