/**
 The recursive-descent parser as functions on the text left at the offset.
 Stepping back by one, as the original does after white space that runs to the
 end, leaves the last byte of what was skipped.
 */
module Grammar {
  import opened Bytes
  import opened Items
  import opened Numbers
  import opened StringCodec

  /** `buffer_skip_whitespace`. */
  function SkipWhitespace(s: seq<byte>): (r: seq<byte>)
    ensures |r| <= |s|
    ensures s != [] ==> r != []
    ensures s != [] && s[0] > SPACE ==> r == s
  {
    if |s| >= 2 && s[0] <= SPACE then SkipWhitespace(s[1..]) else s
  }

  /** The bytes at the front that may belong to a number. */
  function NumberSpan(s: seq<byte>): (r: seq<byte>)
    ensures r <= s
  {
    if s == [] || !NumberByte(s[0]) then [] else [s[0]] + NumberSpan(s[1..])
  }

  function ParseNumber(lib: Lib, s: seq<byte>): (r: Parse<Item>)
    ensures r.Ok? ==> |r.rest| < |s|
    ensures |r.rest| <= |s|
  {
    var scan := Strtod(lib, NumberSpan(s));
    if scan.used == 0 then Err(s) else Ok(BLANK.(kind := Number, num := scan.value), s[scan.used..])
  }

  /** `parse_value`. */
  function ParseValue(lib: Lib, s: seq<byte>, depth: nat): (r: Parse<Item>)
    ensures r.Ok? ==> |r.rest| < |s|
    ensures |r.rest| <= |s|
    decreases |s|, 1
  {
    if NULL_TEXT <= s then Ok(BLANK.(kind := Null), s[4..])
    else if FALSE_TEXT <= s then Ok(BLANK.(kind := False), s[5..])
    else if TRUE_TEXT <= s then Ok(BLANK.(kind := True), s[4..])
    else if s == [] then Err(s)
    else if s[0] == QUOTE then
      var r := ParseString(s);
      if r.Ok? then Ok(BLANK.(kind := String, text := r.value), r.rest) else Err(r.rest)
    else if s[0] == MINUS || 48 <= s[0] <= 57 then ParseNumber(lib, s)
    else if s[0] == LBRACKET then ParseArray(lib, s, depth)
    else if s[0] == LBRACE then ParseObject(lib, s, depth)
    else Err(s)
  }

  /** `parse_array`, at its opening bracket. */
  function ParseArray(lib: Lib, s: seq<byte>, depth: nat): (r: Parse<Item>)
    requires s != [] && s[0] == LBRACKET
    ensures r.Ok? ==> |r.rest| < |s|
    ensures |r.rest| <= |s|
    decreases |s|, 0
  {
    if depth >= NESTING_LIMIT then Err(s)
    else
      var first := SkipWhitespace(s[1..]);
      if first == [] then Err(s)
      else if first[0] == RBRACKET then Ok(BLANK.(kind := Array), first[1..])
      else
        var r := ParseElements(lib, first, depth + 1, []);
        if r.Ok? then Ok(BLANK.(kind := Array, kids := r.value), r.rest) else Err(r.rest)
  }

  /** The loop of `parse_array` from the byte after the bracket or comma, `done` being the elements before it. */
  function ParseElements(lib: Lib, s: seq<byte>, depth: nat, done: seq<Item>): (r: Parse<seq<Item>>)
    ensures r.Ok? ==> |r.rest| < |s|
    ensures |r.rest| <= |s|
    decreases |s|, 2
  {
    var v := ParseValue(lib, SkipWhitespace(s), depth);
    if v.Err? then Err(v.rest)
    else
      var next := SkipWhitespace(v.rest);
      if next != [] && next[0] == COMMA then ParseElements(lib, next[1..], depth, done + [v.value])
      else if next != [] && next[0] == RBRACKET then Ok(done + [v.value], next[1..])
      else Err(next)
  }

  /** `parse_object`, at its opening brace. */
  function ParseObject(lib: Lib, s: seq<byte>, depth: nat): (r: Parse<Item>)
    requires s != [] && s[0] == LBRACE
    ensures r.Ok? ==> |r.rest| < |s|
    ensures |r.rest| <= |s|
    decreases |s|, 0
  {
    if depth >= NESTING_LIMIT then Err(s)
    else
      var first := SkipWhitespace(s[1..]);
      if first == [] then Err(s)
      else if first[0] == RBRACE then Ok(BLANK.(kind := Object), first[1..])
      else
        var r := ParseMembers(lib, first, depth + 1, []);
        if r.Ok? then Ok(BLANK.(kind := Object, kids := r.value), r.rest) else Err(r.rest)
  }

  /** One `name : value`, from the byte after the brace or comma. */
  function ParseMember(lib: Lib, s: seq<byte>, depth: nat): (r: Parse<Item>)
    requires s != []
    ensures r.Ok? ==> |r.rest| < |s|
    ensures |r.rest| <= |s|
    decreases |s|, 2
  {
    var name := ParseString(SkipWhitespace(s));
    if name.Err? then Err(name.rest)
    else
      var colon := SkipWhitespace(name.rest);
      if colon == [] || colon[0] != COLON then Err(colon)
      else
        var v := ParseValue(lib, SkipWhitespace(colon[1..]), depth);
        if v.Ok? then Ok(v.value.(name := name.value), v.rest) else Err(v.rest)
  }

  /** The loop of `parse_object`. With nothing after a comma, the offset stays on the comma. */
  function ParseMembers(lib: Lib, s: seq<byte>, depth: nat, done: seq<Item>): (r: Parse<seq<Item>>)
    requires s != []
    ensures r.Ok? ==> |r.rest| < |s|
    ensures |r.rest| <= |s|
    decreases |s|, 3
  {
    var v := ParseMember(lib, s, depth);
    if v.Err? then Err(v.rest)
    else
      var next := SkipWhitespace(v.rest);
      if next != [] && next[0] == COMMA then
        if next[1..] == [] then Err(next) else ParseMembers(lib, next[1..], depth, done + [v.value])
      else if next != [] && next[0] == RBRACE then Ok(done + [v.value], next[1..])
      else Err(next)
  }

  const BOM: seq<byte> := [0xEF, 0xBB, 0xBF]

  /** `skip_utf8_bom`. */
  function SkipBom(s: seq<byte>): seq<byte> {
    if |s| > 4 && BOM <= s then s[3..] else s
  }

  /** `cJSON_ParseWithLengthOpts` on a buffer that is there; the rest starts where `return_parse_end` points on success. */
  function ParseText(lib: Lib, content: seq<byte>, requireNull: bool): (r: Parse<Item>)
    ensures |r.rest| <= |content|
  {
    if content == [] then Err(content)
    else
      var v := ParseValue(lib, SkipWhitespace(SkipBom(content)), 0);
      if v.Err? then Err(v.rest)
      else if requireNull then
        var end := SkipWhitespace(v.rest);
        if end == [] || end[0] != NUL then Err(end) else Ok(v.value, end)
      else v
  }
}
