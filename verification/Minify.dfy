/**
 `cJSON_Minify`: what it keeps of a text, the in-place algorithm, and how its
 result on printed text relates to compact printing.
 */
module Minify {
  import opened Bytes
  import opened Seqs

  predicate Blank(b: byte) {
    b == SPACE || b == TAB || b == RETURN || b == NEWLINE
  }

  /** `skip_oneline_comment`, behind its two slashes. */
  function AfterLine(s: seq<byte>): (r: seq<byte>)
    ensures |r| <= |s|
  {
    if s == [] then [] else if s[0] == NEWLINE then s[1..] else AfterLine(s[1..])
  }

  /** `skip_multiline_comment`, behind its opening. */
  function AfterComment(s: seq<byte>): (r: seq<byte>)
    ensures |r| <= |s|
  {
    if s == [] then []
    else if |s| > 1 && s[0] == STAR && s[1] == SLASH then s[2..]
    else AfterComment(s[1..])
  }

  /** What is kept of a text that starts outside strings. */
  function Minified(s: seq<byte>): (r: seq<byte>)
    ensures |r| <= |s|
    decreases |s|
  {
    if s == [] then []
    else if Blank(s[0]) then Minified(s[1..])
    else if s[0] == SLASH then
      if |s| > 1 && s[1] == SLASH then Minified(AfterLine(s[2..]))
      else if |s| > 1 && s[1] == STAR then Minified(AfterComment(s[2..]))
      else Minified(s[1..])
    else if s[0] == QUOTE then [QUOTE] + InString(s[1..])
    else [s[0]] + Minified(s[1..])
  }

  /** What is kept of a text that starts inside a string: all of it up to a quote with no backslash before it. */
  function InString(s: seq<byte>): (r: seq<byte>)
    ensures |r| <= |s|
    decreases |s|
  {
    if s == [] then []
    else if s[0] == QUOTE then [QUOTE] + Minified(s[1..])
    else if |s| > 1 && s[0] == BACKSLASH && s[1] == QUOTE then [BACKSLASH, QUOTE] + InString(s[2..])
    else [s[0]] + InString(s[1..])
  }

  // ---- what is copied

  predicate Plain(b: byte) {
    !Blank(b) && b != SLASH && b != QUOTE
  }

  lemma {:induction false} CopiesPlain(t: seq<byte>, x: seq<byte>)
    requires forall i :: 0 <= i < |t| ==> Plain(t[i])
    ensures Minified(t + x) == t + Minified(x)
  {
    if t == [] {
      Empty(x);
      Empty(Minified(x));
    } else {
      assert t + x == [t[0]] + (t[1..] + x);
      Cons(t[0], t[1..] + x);
      CopiesPlain(t[1..], x);
      Assoc([t[0]], t[1..], Minified(x));
      assert [t[0]] + t[1..] == t;
    }
  }

  // ---- minifying twice

  lemma InStringStarts(s: seq<byte>)
    requires s != []
    ensures InString(s) != [] && InString(s)[0] == s[0]
  {}

  /** Minifying what is minified changes nothing. */
  lemma {:induction false} MinifiedTwice(s: seq<byte>)
    ensures Minified(Minified(s)) == Minified(s)
    decreases |s|
  {
    hide InString, AfterLine, AfterComment;
    if s == [] {
    } else if Blank(s[0]) {
      MinifiedTwice(s[1..]);
    } else if s[0] == SLASH {
      if |s| > 1 && s[1] == SLASH {
        MinifiedTwice(AfterLine(s[2..]));
      } else if |s| > 1 && s[1] == STAR {
        MinifiedTwice(AfterComment(s[2..]));
      } else {
        MinifiedTwice(s[1..]);
      }
    } else if s[0] == QUOTE {
      InStringTwice(s[1..]);
      Cons(QUOTE, InString(s[1..]));
    } else {
      MinifiedTwice(s[1..]);
      Cons(s[0], Minified(s[1..]));
    }
  }

  lemma {:induction false} InStringTwice(s: seq<byte>)
    ensures InString(InString(s)) == InString(s)
    decreases |s|
  {
    hide Minified;
    if s == [] {
    } else if s[0] == QUOTE {
      MinifiedTwice(s[1..]);
      Cons(QUOTE, Minified(s[1..]));
    } else if |s| > 1 && s[0] == BACKSLASH && s[1] == QUOTE {
      InStringTwice(s[2..]);
      var r := [BACKSLASH, QUOTE] + InString(s[2..]);
      assert r[2..] == InString(s[2..]);
    } else {
      InStringTwice(s[1..]);
      Cons(s[0], InString(s[1..]));
      if s[1..] != [] { InStringStarts(s[1..]); }
    }
  }

  // ---- in place

  /** The text in an array up to its first NUL at `n`. */
  ghost predicate Terminated(a: array<byte>, n: nat)
    reads a
  {
    n < a.Length && a[n] == NUL && NUL !in a[..n]
  }

  /** `cJSON_Minify`; `n` is where the terminator is. */
  method MinifyInPlace(a: array<byte>, ghost n: nat)
    requires Terminated(a, n)
    modifies a
    ensures var m := |Minified(old(a[..n]))|;
            && m <= n
            && a[..m] == Minified(old(a[..n]))
            && Terminated(a, m)
            && a[n + 1..] == old(a[n + 1..])
  {
    hide Minified, InString, AfterLine, AfterComment;
    ghost var text, kept := a[..n], [];
    var json, into := 0, 0;
    assert text[0..] == text;
    Empty(Minified(text));
    while a[json] != NUL
      invariant 0 <= into <= json <= n
      invariant Unread(a, json, n, text) && a[n + 1..] == old(a[n + 1..])
      invariant a[..into] == kept && NUL !in kept
      invariant kept + Minified(text[json..]) == Minified(text)
      decreases n - json
    {
      MinifiedStep(text, json, kept);
      if a[json] == SPACE || a[json] == TAB || a[json] == RETURN || a[json] == NEWLINE {
        json := json + 1;
      } else if a[json] == SLASH {
        if a[json + 1] == SLASH {
          json := SkipLine(a, json, n, text);
        } else if a[json + 1] == STAR {
          json := SkipComment(a, json, n, text);
        } else {
          json := json + 1;
        }
      } else if a[json] == QUOTE {
        json, into, kept := MinifyString(a, json, into, n, text, kept);
      } else {
        kept := kept + [a[json]];
        Emit(a, into, a[json], json + 1, n, text);
        json := json + 1;
        into := into + 1;
      }
    }
    assert json == n && text[n..] == [];
    NothingLeft();
    Empty(kept);
    a[into] := NUL;
  }

  lemma MinifiedStep(text: seq<byte>, json: nat, kept: seq<byte>)
    requires json < |text|
    ensures Blank(text[json]) ==> Minified(text[json..]) == Minified(text[json + 1..])
    ensures text[json] == SLASH ==>
              Minified(text[json..]) ==
              if json + 1 < |text| && text[json + 1] == SLASH then Minified(AfterLine(text[json + 2..]))
              else if json + 1 < |text| && text[json + 1] == STAR then Minified(AfterComment(text[json + 2..]))
              else Minified(text[json + 1..])
    ensures text[json] == QUOTE ==>
              kept + Minified(text[json..]) == kept + [QUOTE] + InString(text[json + 1..])
    ensures !Blank(text[json]) && text[json] != SLASH && text[json] != QUOTE ==>
              kept + Minified(text[json..]) == kept + [text[json]] + Minified(text[json + 1..])
  {
    hide InString, AfterLine, AfterComment;
    var s := text[json..];
    assert s[1..] == text[json + 1..];
    if |s| > 1 { assert s[2..] == text[json + 2..]; }
    Assoc(kept, [QUOTE], InString(s[1..]));
    Assoc(kept, [s[0]], Minified(s[1..]));
  }

  /** What lies from `json` on is still the text and its terminator. */
  ghost predicate Unread(a: array<byte>, json: nat, n: nat, text: seq<byte>)
    reads a
  {
    && json <= n == |text| && n < a.Length && a[n] == NUL && NUL !in text
    && forall i :: json <= i < n ==> a[i] == text[i]
  }

  method SkipLine(a: array<byte>, start: nat, ghost n: nat, ghost text: seq<byte>) returns (json: nat)
    requires Unread(a, start, n, text) && start + 1 < n
    ensures start < json <= n
    ensures text[json..] == AfterLine(text[start + 2..])
  {
    json := start + 2;
    while a[json] != NUL
      invariant start < json <= n
      invariant AfterLine(text[json..]) == AfterLine(text[start + 2..])
      decreases n - json
    {
      assert text[json..][0] == a[json] && text[json..][1..] == text[json + 1..];
      if a[json] == NEWLINE {
        return json + 1;
      }
      json := json + 1;
    }
    assert json == n;
  }

  method SkipComment(a: array<byte>, start: nat, ghost n: nat, ghost text: seq<byte>) returns (json: nat)
    requires Unread(a, start, n, text) && start + 1 < n
    ensures start < json <= n
    ensures text[json..] == AfterComment(text[start + 2..])
  {
    json := start + 2;
    while a[json] != NUL
      invariant start < json <= n
      invariant AfterComment(text[json..]) == AfterComment(text[start + 2..])
      decreases n - json
    {
      assert text[json..][0] == a[json] && text[json..][1..] == text[json + 1..];
      if a[json] == STAR && a[json + 1] == SLASH {
        assert text[json..][1] == SLASH && text[json..][2..] == text[json + 2..];
        return json + 2;
      }
      json := json + 1;
    }
    assert json == n;
  }

  /** Writes a byte behind the kept ones, in front of what is unread. */
  method Emit(a: array<byte>, at: nat, b: byte, ghost json: nat, ghost n: nat, ghost text: seq<byte>)
    requires at < json && Unread(a, json, n, text)
    modifies a
    ensures Unread(a, json, n, text) && a[n + 1..] == old(a[n + 1..])
    ensures a[..at + 1] == old(a[..at]) + [b]
  {
    a[at] := b;
  }

  /** `minify_string`, from the opening quote at `start`; `first` is where it writes. */
  method MinifyString(a: array<byte>, start: nat, first: nat, ghost n: nat, ghost text: seq<byte>, ghost before: seq<byte>)
    returns (json: nat, into: nat, ghost kept: seq<byte>)
    requires Unread(a, start, n, text)
    requires first <= start < n && text[start] == QUOTE
    requires a[..first] == before && NUL !in before
    modifies a
    ensures first < into <= json <= n && start < json
    ensures Unread(a, json, n, text) && a[n + 1..] == old(a[n + 1..])
    ensures a[..into] == kept && NUL !in kept
    ensures kept + Minified(text[json..]) == before + [QUOTE] + InString(text[start + 1..])
  {
    hide Minified, InString;
    ghost var all := before + [QUOTE] + InString(text[start + 1..]);
    kept := before + [QUOTE];
    Emit(a, first, a[start], start + 1, n, text);
    json, into := start + 1, first + 1;
    while a[json] != NUL
      invariant first < into <= json <= n && start < json
      invariant Unread(a, json, n, text) && a[n + 1..] == old(a[n + 1..])
      invariant a[..into] == kept && NUL !in kept
      invariant kept + InString(text[json..]) == all
      decreases n - json
    {
      var closed;
      closed, json, into, kept := MinifyStringByte(a, json, into, n, text, kept);
      if closed {
        return;
      }
    }
    assert json == n && text[n..] == [];
    NothingLeft();
  }

  /** One turn of `minify_string`: a byte, or a backslash and the quote behind it. */
  method MinifyStringByte(a: array<byte>, start: nat, first: nat, ghost n: nat, ghost text: seq<byte>, ghost before: seq<byte>)
    returns (closed: bool, json: nat, into: nat, ghost kept: seq<byte>)
    requires Unread(a, start, n, text) && first <= start < n
    requires a[..first] == before && NUL !in before
    modifies a
    ensures first < into <= json <= n && start < json
    ensures Unread(a, json, n, text) && a[n + 1..] == old(a[n + 1..])
    ensures a[..into] == kept && NUL !in kept
    ensures before + InString(text[start..]) == kept + if closed then Minified(text[json..]) else InString(text[json..])
  {
    hide Minified, InString;
    json, into := start, first;
    var b, next := a[json], a[json + 1];
    InStringStep(text, json, before);
    Emit(a, into, b, json + 1, n, text);
    kept := before + [b];
    if b == QUOTE {
      return true, json + 1, into + 1, kept;
    }
    if b == BACKSLASH && next == QUOTE {
      Emit(a, into + 1, next, json + 2, n, text);
      kept := kept + [QUOTE];
      json, into := json + 1, into + 1;
    }
    return false, json + 1, into + 1, kept;
  }

  lemma InStringStep(text: seq<byte>, json: nat, kept: seq<byte>)
    requires json < |text|
    ensures text[json] == QUOTE ==>
              kept + InString(text[json..]) == kept + [QUOTE] + Minified(text[json + 1..])
    ensures text[json] == BACKSLASH && json + 1 < |text| && text[json + 1] == QUOTE ==>
              kept + InString(text[json..]) == kept + [BACKSLASH] + [QUOTE] + InString(text[json + 2..])
    ensures text[json] != QUOTE && !(text[json] == BACKSLASH && json + 1 < |text| && text[json + 1] == QUOTE) ==>
              kept + InString(text[json..]) == kept + [text[json]] + InString(text[json + 1..])
  {
    hide Minified;
    var s := text[json..];
    assert s[1..] == text[json + 1..];
    if text[json] == QUOTE {
      Assoc(kept, [QUOTE], Minified(s[1..]));
    } else if text[json] == BACKSLASH && json + 1 < |text| && text[json + 1] == QUOTE {
      assert s[2..] == text[json + 2..];
      Assoc4(kept, [BACKSLASH], [QUOTE], InString(s[2..]));
    } else {
      Assoc(kept, [s[0]], InString(s[1..]));
    }
  }

  lemma NothingLeft()
    ensures InString([]) == Minified([]) == []
  {}
}
