/**
 JSON texts by their structure (section 2 of RFC 8259), whatever reads or
 writes them: values with the white space around their parts, and what each
 stands for. Nothing here is taken from the parser or the printer; characters
 stand for themselves. Texts are spelled in front of what follows them.
 */
module Json {
  import opened Bytes
  import opened Seqs
  import opened Items
  import opened Numbers
  import opened JsonStrings

  /** A number with the value read from it; a string as it stands between its quotes, with the bytes that it stands for. */
  datatype Value =
    | Word(kind: Kind)
    | Figure(text: seq<byte>, num: real)
    | Quote(body: seq<byte>, bytes: seq<byte>)
    | Brackets(pad: seq<byte>, elements: seq<Element>)
    | Braces(pad: seq<byte>, members: seq<Member>)

  datatype Element = Element(before: seq<byte>, value: Value, behind: seq<byte>)

  datatype Member = Member(before: seq<byte>, key: seq<byte>, name: seq<byte>, colon: seq<byte>,
                           gap: seq<byte>, value: Value, behind: seq<byte>)

  // ---- how it is spelled

  function WordText(kind: Kind): seq<byte> {
    if kind.Null? then Ascii("null") else if kind.True? then Ascii("true") else Ascii("false")
  }

  function Spell(v: Value, rest: seq<byte>): seq<byte>
    decreases v, 0
  {
    match v
    case Word(kind) => WordText(kind) + rest
    case Figure(text, _) => text + rest
    case Quote(body, _) => SpellString(body, rest)
    case Brackets(pad, elements) =>
      [Code('[')] + if elements == [] then pad + ([Code(']')] + rest) else SpellElements(elements, [Code(']')] + rest)
    case Braces(pad, members) =>
      [Code('{')] + if members == [] then pad + ([Code('}')] + rest) else SpellMembers(members, [Code('}')] + rest)
  }

  function SpellString(body: seq<byte>, rest: seq<byte>): seq<byte> {
    [Code('"')] + (body + ([Code('"')] + rest))
  }

  function SpellElements(es: seq<Element>, rest: seq<byte>): seq<byte>
    requires es != []
    decreases es, 1
  {
    es[0].before + Spell(es[0].value, es[0].behind + if es[1..] == [] then rest else [Code(',')] + SpellElements(es[1..], rest))
  }

  function SpellMembers(ms: seq<Member>, rest: seq<byte>): seq<byte>
    requires ms != []
    decreases ms, 1
  {
    var m := ms[0];
    m.before + SpellString(m.key, m.colon + ([Code(':')] + (m.gap +
      Spell(m.value, m.behind + if ms[1..] == [] then rest else [Code(',')] + SpellMembers(ms[1..], rest)))))
  }

  // ---- `rest` is only carried along

  lemma {:induction false} SpellRest(v: Value, a: seq<byte>, b: seq<byte>)
    ensures Spell(v, a + b) == Spell(v, a) + b
    decreases v, 0
  {
    hide SpellElements, SpellMembers;
    match v {
      case Word(kind) => Assoc(WordText(kind), a, b);
      case Figure(text, _) => Assoc(text, a, b);
      case Quote(body, _) => SpellStringRest(body, a, b);
      case Brackets(pad, elements) => ContainerRest(pad, Code('['), Code(']'), a, b);
        if elements != [] {
          SpellElementsRest(elements, [Code(']')] + a, b);
          Assoc([Code('[')], SpellElements(elements, [Code(']')] + a), b);
        }
      case Braces(pad, members) => ContainerRest(pad, Code('{'), Code('}'), a, b);
        if members != [] {
          SpellMembersRest(members, [Code('}')] + a, b);
          Assoc([Code('{')], SpellMembers(members, [Code('}')] + a), b);
        }
    }
  }

  lemma ContainerRest(pad: seq<byte>, open: byte, close: byte, a: seq<byte>, b: seq<byte>)
    ensures [close] + (a + b) == [close] + a + b
    ensures [open] + (pad + ([close] + (a + b))) == [open] + (pad + ([close] + a)) + b
  {}

  lemma SpellStringRest(body: seq<byte>, a: seq<byte>, b: seq<byte>)
    ensures SpellString(body, a + b) == SpellString(body, a) + b
  {
    ContainerRest(body, Code('"'), Code('"'), a, b);
  }

  lemma {:induction false} SpellElementsRest(es: seq<Element>, a: seq<byte>, b: seq<byte>)
    requires es != []
    ensures SpellElements(es, a + b) == SpellElements(es, a) + b
    decreases es, 1
  {
    hide Spell;
    var e := es[0];
    var next := if es[1..] == [] then a else [Code(',')] + SpellElements(es[1..], a);
    if es[1..] != [] {
      SpellElementsRest(es[1..], a, b);
      Assoc([Code(',')], SpellElements(es[1..], a), b);
    }
    Assoc(e.behind, next, b);
    SpellRest(e.value, e.behind + next, b);
    Assoc(e.before, Spell(e.value, e.behind + next), b);
  }

  lemma {:induction false} SpellMembersRest(ms: seq<Member>, a: seq<byte>, b: seq<byte>)
    requires ms != []
    ensures SpellMembers(ms, a + b) == SpellMembers(ms, a) + b
    decreases ms, 1
  {
    hide Spell, SpellString;
    var m := ms[0];
    var next := if ms[1..] == [] then a else [Code(',')] + SpellMembers(ms[1..], a);
    if ms[1..] != [] {
      SpellMembersRest(ms[1..], a, b);
      Assoc([Code(',')], SpellMembers(ms[1..], a), b);
    }
    Assoc(m.behind, next, b);
    SpellRest(m.value, m.behind + next, b);
    var value := Spell(m.value, m.behind + next);
    Assoc(m.gap, value, b);
    Assoc([Code(':')], m.gap + value, b);
    Assoc(m.colon, [Code(':')] + (m.gap + value), b);
    SpellStringRest(m.key, m.colon + ([Code(':')] + (m.gap + value)), b);
    Assoc(m.before, SpellString(m.key, m.colon + ([Code(':')] + (m.gap + value))), b);
  }

  // ---- what it stands for

  /** C strings end at a NUL. */
  function Meaning(v: Value, name: CString): Item
    decreases v, 0
  {
    match v
    case Word(kind) => Item(kind, 0.0, NoString, name, [])
    case Figure(_, num) => Item(Number, num, NoString, name, [])
    case Quote(_, bytes) => Item(String, 0.0, Chars(BeforeNul(bytes)), name, [])
    case Brackets(_, elements) => Item(Array, 0.0, NoString, name, ElementMeanings(elements))
    case Braces(_, members) => Item(Object, 0.0, NoString, name, MemberMeanings(members))
  }

  function ElementMeanings(es: seq<Element>): (r: seq<Item>)
    ensures |r| == |es|
    decreases es, 1
  {
    if es == [] then [] else [Meaning(es[0].value, NoString)] + ElementMeanings(es[1..])
  }

  function MemberMeanings(ms: seq<Member>): (r: seq<Item>)
    ensures |r| == |ms|
    decreases ms, 1
  {
    if ms == [] then [] else [Meaning(ms[0].value, Chars(BeforeNul(ms[0].name)))] + MemberMeanings(ms[1..])
  }

  // ---- which of them are texts: as RFC 8259 has it, save for more white space and laxer strings

  /** The parser takes every control character for white space. */
  predicate White(w: seq<byte>) {
    forall i :: 0 <= i < |w| ==> w[i] <= 32
  }

  predicate FigureByte(b: byte) {
    Code('0') <= b <= Code('9') || b == Code('+') || b == Code('-') || b == Code('.') || b == Code('e') || b == Code('E')
  }

  ghost predicate Valid(lib: Lib, v: Value, depth: nat)
    decreases v, 0
  {
    match v
    case Word(kind) => kind.Null? || kind.True? || kind.False?
    case Figure(text, num) =>
      && text != [] && (text[0] == Code('-') || Code('0') <= text[0] <= Code('9'))
      && (forall i :: 0 <= i < |text| ==> FigureByte(text[i]))
      && Strtod(lib, text) == Scan(num, |text|)
    case Quote(body, bytes) => Closed(body) && Reads(body, bytes)
    case Brackets(pad, elements) => depth < 1000 && White(pad) && ElementsValid(lib, elements, depth + 1)
    case Braces(pad, members) => depth < 1000 && White(pad) && MembersValid(lib, members, depth + 1)
  }

  ghost predicate ElementsValid(lib: Lib, es: seq<Element>, depth: nat)
    decreases es, 1
  {
    es == [] ||
    (White(es[0].before) && Valid(lib, es[0].value, depth) && White(es[0].behind) && ElementsValid(lib, es[1..], depth))
  }

  ghost predicate MembersValid(lib: Lib, ms: seq<Member>, depth: nat)
    decreases ms, 1
  {
    ms == [] ||
    (&& White(ms[0].before) && Closed(ms[0].key) && Reads(ms[0].key, ms[0].name)
     && White(ms[0].colon) && White(ms[0].gap) && Valid(lib, ms[0].value, depth) && White(ms[0].behind)
     && MembersValid(lib, ms[1..], depth))
  }
}
