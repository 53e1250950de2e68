/** Terminal colours as the `colored` crate renders them: a styled string is
    the style's SGR escape, the text, and the reset escape. A coloured output
    line is described as a sequence of spans, so that removing the colour
    (`Strip`) and drawing it (`Render`) are two readings of one value. */
module Ansi {
  import opened Text

  datatype Style = Green | Yellow | RedBold

  /** The escape that `colored` writes before text in the given style. */
  function Escape(st: Style): string
  {
    match st
    case Green => "\U{1B}[32m"
    case Yellow => "\U{1B}[33m"
    case RedBold => "\U{1B}[1;31m"
  }

  const Reset: string := "\U{1B}[0m"

  /** `text.green()`, `text.yellow()`, `text.red().bold()` written out. */
  function Paint(st: Style, text: string): string
  {
    Escape(st) + text + Reset
  }

  datatype Span = Plain(text: string) | Styled(style: Style, text: string)

  function Draw(sp: Span): string
  {
    match sp
    case Plain(t) => t
    case Styled(st, t) => Paint(st, t)
  }

  function Unstyled(sp: Span): string
  {
    sp.text
  }

  /** What a terminal is sent for the spans. */
  function Render(spans: seq<Span>): string
  {
    FlatMap(Draw, spans)
  }

  /** The text of the spans with every colour removed. */
  function Strip(spans: seq<Span>): string
  {
    FlatMap(Unstyled, spans)
  }

  lemma SpansCons(sp: Span, rest: seq<Span>)
    ensures Render([sp] + rest) == Draw(sp) + Render(rest)
    ensures Strip([sp] + rest) == sp.text + Strip(rest)
  {
    assert ([sp] + rest)[1..] == rest;
  }

  lemma RenderAppend(a: seq<Span>, b: seq<Span>)
    ensures Render(a + b) == Render(a) + Render(b)
  {
    FlatMapAppend(Draw, a, b);
  }

  lemma StripAppend(a: seq<Span>, b: seq<Span>)
    ensures Strip(a + b) == Strip(a) + Strip(b)
  {
    FlatMapAppend(Unstyled, a, b);
  }

  /** The pieces of a line, with every separator between two pieces shown
      as `m` in bold red. */
  function Highlighted(pieces: seq<string>, m: string): (r: seq<Span>)
    requires |pieces| >= 1
    decreases |pieces|
  {
    if |pieces| == 1 then [Plain(pieces[0])]
    else [Plain(pieces[0]), Styled(RedBold, m)] + Highlighted(pieces[1..], m)
  }

  /** Drawn, the highlighted pieces are the pieces joined by the painted
      separator; stripped, they are the pieces joined by `m` itself. */
  lemma {:induction false} HighlightedReadings(pieces: seq<string>, m: string)
    requires |pieces| >= 1
    ensures Render(Highlighted(pieces, m)) == Join(pieces, Paint(RedBold, m))
    ensures Strip(Highlighted(pieces, m)) == Join(pieces, m)
    decreases |pieces|
  {
    var tail: seq<Span> := if |pieces| == 1 then [] else [Styled(RedBold, m)] + Highlighted(pieces[1..], m);
    assert Highlighted(pieces, m) == [Plain(pieces[0])] + tail;
    SpansCons(Plain(pieces[0]), tail);
    if |pieces| > 1 {
      HighlightedReadings(pieces[1..], m);
      SpansCons(Styled(RedBold, m), Highlighted(pieces[1..], m));
    } else {
      assert Render(tail) == [] && Strip(tail) == [];
    }
  }

  /** Every plain span of a highlighted sequence is one of the pieces, and
      every styled one is `m` in bold red. */
  lemma {:induction false} HighlightedSpans(pieces: seq<string>, m: string)
    requires |pieces| >= 1
    ensures forall k :: 0 <= k < |Highlighted(pieces, m)| ==>
      match Highlighted(pieces, m)[k]
      case Plain(t) => t in pieces
      case Styled(st, t) => st == RedBold && t == m
    decreases |pieces|
  {
    if |pieces| > 1 {
      HighlightedSpans(pieces[1..], m);
      var r := Highlighted(pieces, m);
      var tail := Highlighted(pieces[1..], m);
      forall k | 2 <= k < |r| ensures r[k] == tail[k - 2] { }
      forall t | t in pieces[1..] ensures t in pieces { }
    }
  }
}
