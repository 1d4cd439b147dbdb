/**
 * What `splitText` produces, stated over the list of nodes its tree walker
 * visits. The walk itself (a `SHOW_ALL` tree walker) is not modelled: it
 * visits an element and then the nodes inside it, so the list may hold an
 * element followed by its own text nodes.
 */
module Segment {
  import opened Units
  import opened Shuffling

  /** A node the tree walker visits. */
  datatype Node =
    | Element(tag: string, textContent: string)
    | Text(data: string)
    | Other  // comments and other node types: visited, then ignored

  /** A child of the element after `splitText`. */
  datatype Piece =
    | Spacer            // the fixed-width span holding " "
    | Glyph(slot: nat)  // the span of animatable unit number `slot`
    | Clone(node: Node) // a cloned `<br>`

  /** What a child shows: a character, or a line break. */
  datatype Token = Character(c: char) | Break(node: Node)

  predicate IsBreak(n: Node) {
    n.Element? && n.tag == "BR"
  }

  /**
   * The code points `String.prototype.trim` removes: white space and line
   * terminators. ASCII blanks are among them; letters and digits are not.
   */
  predicate IsTrimmed(c: char): (r: bool)
    ensures c == ' ' || c == '\t' || c == '\n' || c == '\r' ==> r
    ensures ('0' <= c <= '9') || ('a' <= c <= 'z') || ('A' <= c <= 'Z') ==> !r
  {
    var n := c as int;
    n == 0x09 || n == 0x0A || n == 0x0B || n == 0x0C || n == 0x0D || n == 0x20 || n == 0xA0 ||
    n == 0x1680 || (0x2000 <= n <= 0x200A) || n == 0x2028 || n == 0x2029 || n == 0x202F ||
    n == 0x205F || n == 0x3000 || n == 0xFEFF
  }

  function LeadingSpace(s: string): (n: nat)
    ensures n <= |s|
    ensures forall i :: 0 <= i < n ==> IsTrimmed(s[i])
    ensures n < |s| ==> !IsTrimmed(s[n])
  {
    if s == [] || !IsTrimmed(s[0]) then 0 else 1 + LeadingSpace(s[1..])
  }

  function TrailingSpace(s: string): (n: nat)
    ensures n <= |s|
    ensures forall i :: |s| - n <= i < |s| ==> IsTrimmed(s[i])
    ensures n < |s| ==> !IsTrimmed(s[|s| - 1 - n])
  {
    if s == [] || !IsTrimmed(s[|s| - 1]) then 0 else 1 + TrailingSpace(s[..|s| - 1])
  }

  /**
   * `s.trim()`: the longest infix of `s` that neither starts nor ends with
   * white space; everything cut off is white space.
   */
  function Trim(s: string): (r: string)
    ensures r == [] || (!IsTrimmed(r[0]) && !IsTrimmed(r[|r| - 1]))
    ensures var a := LeadingSpace(s);
      && a + |r| <= |s| && r == s[a..a + |r|]
      && (forall k :: a + |r| <= k < |s| ==> IsTrimmed(s[k]))
  {
    var a, z := LeadingSpace(s), TrailingSpace(s);
    if a == |s| then []
    else
      assert !IsTrimmed(s[a]) && a < |s| - z;
      s[a..|s| - z]
  }

  /** Text made only of white space trims to nothing, so its node is skipped. */
  lemma TrimAllSpace(s: string)
    requires forall k :: 0 <= k < |s| ==> IsTrimmed(s[k])
    ensures Trim(s) == []
  {
    if Trim(s) != [] {
      assert false;
    }
  }

  /** Text that neither starts nor ends with white space is left as it is. */
  lemma TrimUntrimmed(s: string)
    requires s == [] || (!IsTrimmed(s[0]) && !IsTrimmed(s[|s| - 1]))
    ensures Trim(s) == s
  {
    var r := Trim(s);
    if s != [] {
      assert LeadingSpace(s) == 0;
      if |r| < |s| {
        assert false;
      }
    }
  }

  /**
   * The characters `splitText` expands for one visited node: a `BR` and
   * other nodes give none, any other element its whole `textContent`, and a
   * text node its data without surrounding white space.
   */
  function Expanded(n: Node): (r: string)
    ensures n.Other? || IsBreak(n) ==> r == []
    ensures n.Element? && !IsBreak(n) ==> r == n.textContent
    ensures n.Text? ==> r == Trim(n.data)
  {
    match n
    case Element(tag, text) => if tag == "BR" then [] else text  // untrimmed textContent
    case Text(data) => Trim(data)                               // trimmed; empty means skipped
    case Other => []
  }

  function Chars(s: string): (r: seq<Token>)
    ensures |r| == |s| && forall i :: 0 <= i < |s| ==> r[i] == Character(s[i])
  {
    seq(|s|, i requires 0 <= i < |s| => Character(s[i]))
  }

  /**
   * What one visited node contributes to the element, in order: a `BR`
   * its clone, any other node one token per expanded character.
   */
  function NodeTokens(n: Node): (r: seq<Token>)
    ensures IsBreak(n) ==> r == [Break(n)]
    ensures !IsBreak(n) ==> |r| == |Expanded(n)| && forall i :: 0 <= i < |r| ==> r[i] == Character(Expanded(n)[i])
  {
    if IsBreak(n) then [Break(n)] else Chars(Expanded(n))
  }

  /** What the element shows after `splitText`, node after node. Every clone is of a visited `BR`. */
  function Tokens(nodes: seq<Node>): (r: seq<Token>)
    ensures forall i :: 0 <= i < |r| && r[i].Break? ==> r[i].node in nodes && IsBreak(r[i].node)
    decreases |nodes|
  {
    if nodes == [] then [] else Tokens(nodes[..|nodes| - 1]) + NodeTokens(nodes[|nodes| - 1])
  }

  /** The characters of `s` other than `" "`, in order. */
  function NonSpace(s: string): (r: string)
    ensures ' ' !in r && |r| <= |s|
    decreases |s|
  {
    if s == [] then []
    else NonSpace(s[..|s| - 1]) + (if s[|s| - 1] == ' ' then [] else [s[|s| - 1]])
  }

  /** The characters that become animatable units, node after node. */
  function Glyphs(nodes: seq<Node>): (r: string)
    ensures ' ' !in r
    decreases |nodes|
  {
    if nodes == [] then [] else Glyphs(nodes[..|nodes| - 1]) + NonSpace(Expanded(nodes[|nodes| - 1]))
  }

  /** Every glyph in `layout` names one of the first `n` units. */
  predicate SlotsBelow(layout: seq<Piece>, n: nat) {
    forall i :: 0 <= i < |layout| && layout[i].Glyph? ==> layout[i].slot < n
  }

  /** What one child shows: a spacer `" "`, a glyph its unit's character, a clone the line break it copies. */
  function TokenOf(p: Piece, units: seq<Unit>): (t: Token)
    requires p.Glyph? ==> p.slot < |units|
    ensures t.Break? <==> p.Clone?
    ensures p.Spacer? ==> t.c == ' '
    ensures p.Glyph? ==> t.c == units[p.slot].ch
    ensures p.Clone? ==> t.node == p.node
  {
    match p
    case Spacer => Character(' ')
    case Glyph(k) => Character(units[k].ch)
    case Clone(n) => Break(n)
  }

  /** What the element's children show, child by child. */
  function Render(layout: seq<Piece>, units: seq<Unit>): (r: seq<Token>)
    requires SlotsBelow(layout, |units|)
    ensures |r| == |layout| && forall i :: 0 <= i < |r| ==> r[i] == TokenOf(layout[i], units)
  {
    seq(|layout|, i requires 0 <= i < |layout| => TokenOf(layout[i], units))
  }

  /** The units the glyphs of `layout` name, in order. */
  function GlyphSlots(layout: seq<Piece>): seq<nat>
    decreases |layout|
  {
    if layout == [] then []
    else
      var p := layout[|layout| - 1];
      GlyphSlots(layout[..|layout| - 1]) + (if p.Glyph? then [p.slot] else [])
  }

  function CharsOf(units: seq<Unit>): (r: string)
    ensures |r| == |units| && forall i :: 0 <= i < |units| ==> r[i] == units[i].ch
  {
    seq(|units|, i requires 0 <= i < |units| => units[i].ch)
  }

  lemma RenderSnoc(layout: seq<Piece>, units: seq<Unit>, p: Piece)
    requires SlotsBelow(layout, |units|) && (p.Glyph? ==> p.slot < |units|)
    ensures SlotsBelow(layout + [p], |units|)
    ensures Render(layout + [p], units) == Render(layout, units) + [TokenOf(p, units)]
  {
    assert forall i :: 0 <= i < |layout| ==> (layout + [p])[i] == layout[i];
  }

  /** Adding units does not change what existing children show. */
  lemma RenderExtend(layout: seq<Piece>, units: seq<Unit>, more: seq<Unit>)
    requires SlotsBelow(layout, |units|)
    ensures SlotsBelow(layout, |units + more|)
    ensures Render(layout, units + more) == Render(layout, units)
  {
    forall i | 0 <= i < |layout|
      ensures TokenOf(layout[i], units + more) == TokenOf(layout[i], units)
    {
      if layout[i].Glyph? {
        assert (units + more)[layout[i].slot] == units[layout[i].slot];
      }
    }
  }

  /** Only the characters of the units matter to what the children show. */
  lemma RenderSameChars(layout: seq<Piece>, a: seq<Unit>, b: seq<Unit>)
    requires SlotsBelow(layout, |a|) && CharsOf(a) == CharsOf(b)
    ensures SlotsBelow(layout, |b|) && Render(layout, a) == Render(layout, b)
  {
    forall i | 0 <= i < |layout|
      ensures TokenOf(layout[i], a) == TokenOf(layout[i], b)
    {
      if layout[i].Glyph? {
        assert CharsOf(a)[layout[i].slot] == CharsOf(b)[layout[i].slot];
      }
    }
  }

  lemma GlyphSlotsSnoc(layout: seq<Piece>, p: Piece)
    ensures GlyphSlots(layout + [p]) == GlyphSlots(layout) + (if p.Glyph? then [p.slot] else [])
  {
    assert (layout + [p])[..|layout|] == layout;
  }

  lemma TokensSnoc(nodes: seq<Node>, i: nat)
    requires i < |nodes|
    ensures Tokens(nodes[..i + 1]) == Tokens(nodes[..i]) + NodeTokens(nodes[i])
    ensures Glyphs(nodes[..i + 1]) == Glyphs(nodes[..i]) + NonSpace(Expanded(nodes[i]))
  {
    assert nodes[..i + 1][..i] == nodes[..i];
  }

  lemma CharsSnoc(s: string, j: nat)
    requires j < |s|
    ensures Chars(s[..j + 1]) == Chars(s[..j]) + [Character(s[j])]
    ensures s[j] == ' ' ==> NonSpace(s[..j + 1]) == NonSpace(s[..j])
    ensures s[j] != ' ' ==> NonSpace(s[..j + 1]) == NonSpace(s[..j]) + [s[j]]
  {
    assert s[..j + 1][..j] == s[..j];
  }

  /**
   * A laid-out element whose children show `Tokens(nodes)` puts a spacer
   * exactly where a `" "` was, a clone exactly where a `<br>` was, and a
   * glyph exactly where any other character was.
   */
  lemma PiecesMatchTokens(layout: seq<Piece>, units: seq<Unit>, nodes: seq<Node>)
    requires SlotsBelow(layout, |units|) && Render(layout, units) == Tokens(nodes)
    requires forall k :: 0 <= k < |units| ==> units[k].ch != ' '
    ensures |layout| == |Tokens(nodes)|
    ensures forall i :: 0 <= i < |layout| ==> (layout[i] == Spacer <==> Tokens(nodes)[i] == Character(' '))
    ensures forall i :: 0 <= i < |layout| ==> (layout[i].Clone? <==> Tokens(nodes)[i].Break?)
    ensures forall i :: 0 <= i < |layout| ==>
      (layout[i].Glyph? <==> Tokens(nodes)[i].Character? && Tokens(nodes)[i].c != ' ')
  {
    forall i | 0 <= i < |layout|
      ensures Render(layout, units)[i] == TokenOf(layout[i], units)
    {
    }
  }

  lemma GlyphsSnoc(nodes: seq<Node>, n: Node)
    ensures Glyphs(nodes + [n]) == Glyphs(nodes) + NonSpace(Expanded(n))
    ensures Tokens(nodes + [n]) == Tokens(nodes) + NodeTokens(n)
  {
    assert (nodes + [n])[..|nodes|] == nodes;
  }

  /** A line break shows as one break and adds no unit. */
  lemma BreakAddsNoUnit(nodes: seq<Node>, text: string)
    ensures Glyphs(nodes + [Element("BR", text)]) == Glyphs(nodes)
    ensures Tokens(nodes + [Element("BR", text)]) == Tokens(nodes) + [Break(Element("BR", text))]
  {
    GlyphsSnoc(nodes, Element("BR", text));
    assert NonSpace([]) == [];
  }

  /** A text node of white space only shows nothing and adds no unit. */
  lemma BlankTextSkipped(nodes: seq<Node>, data: string)
    requires forall k :: 0 <= k < |data| ==> IsTrimmed(data[k])
    ensures Glyphs(nodes + [Text(data)]) == Glyphs(nodes)
    ensures Tokens(nodes + [Text(data)]) == Tokens(nodes)
  {
    TrimAllSpace(data);
    GlyphsSnoc(nodes, Text(data));
    assert Chars([]) == [] && NonSpace([]) == [];
  }

  /**
   * The walker visits an inline element and then its own text node, so the
   * element's characters become units twice: once from its untrimmed
   * `textContent` and once from the trimmed text node.
   */
  lemma NestedTextExpandedTwice(nodes: seq<Node>, tag: string, text: string)
    requires tag != "BR"
    requires text == [] || (!IsTrimmed(text[0]) && !IsTrimmed(text[|text| - 1]))
    ensures Glyphs(nodes + [Element(tag, text), Text(text)]) == Glyphs(nodes) + NonSpace(text) + NonSpace(text)
  {
    var e, t := Element(tag, text), Text(text);
    var m := nodes + [e];
    assert nodes + [e, t] == m + [t];
    TrimUntrimmed(text);
    assert Expanded(e) == text && Expanded(t) == text;
    GlyphsSnoc(nodes, e);
    GlyphsSnoc(m, t);
  }
}
