/** Element trees and their indented text (XmlElement).  A character stands for
    one byte of the program's strings. */
module XmlPrinter {

  datatype Attribute = Attribute(name: string, value: string)

  datatype Element = Element(name: string, content: string,
                             attributes: seq<Attribute>, children: seq<Element>)

  // ---------- Escaping (section 4.6 of XML 1.0) ----------

  function EscapeChar(c: char): (r: string)
    ensures r != []
  {
    match c
    case '<' => "&lt;"
    case '>' => "&gt;"
    case '&' => "&amp;"
    case '\'' => "&apos;"
    case '"' => "&quot;"
    case _ => [c]
  }

  function Escape(s: string): (r: string)
    ensures |r| >= |s|
  {
    if s == [] then [] else EscapeChar(s[0]) + Escape(s[1..])
  }

  /** The reading of a text in which the five predefined entities stand for their
      characters and every other character for itself. */
  function Unescape(s: string): string
    decreases |s|
  {
    if s == [] then []
    else if "&lt;" <= s then ['<'] + Unescape(s[4..])
    else if "&gt;" <= s then ['>'] + Unescape(s[4..])
    else if "&amp;" <= s then ['&'] + Unescape(s[5..])
    else if "&apos;" <= s then ['\''] + Unescape(s[6..])
    else if "&quot;" <= s then ['"'] + Unescape(s[6..])
    else [s[0]] + Unescape(s[1..])
  }

  lemma UnescapeChar(c: char, s: string)
    ensures Unescape(EscapeChar(c) + s) == [c] + Unescape(s)
  {
    var e := EscapeChar(c);
    assert (e + s)[|e|..] == s;
    assert e <= e + s;
    assert (e + s)[..|e|] == e;
    if c in "<>&'\"" {
      assert |e| >= 4;
      assert (e + s)[1] == e[1] && (e + s)[2] == e[2];
    } else {
      assert (e + s)[0] == c;
    }
  }

  /** Escaping loses nothing. */
  lemma {:induction false} EscapeRoundTrip(s: string)
    ensures Unescape(Escape(s)) == s
  {
    if s != [] {
      EscapeRoundTrip(s[1..]);
      UnescapeChar(s[0], Escape(s[1..]));
    }
  }

  /** Escaping leaves no markup character behind. */
  lemma {:induction false} EscapeHidesMarkup(s: string, c: char)
    requires c in Escape(s)
    ensures c != '<' && c != '>' && c != '\'' && c != '"'
  {
    if c in EscapeChar(s[0]) {
    } else {
      EscapeHidesMarkup(s[1..], c);
    }
  }

  // ---------- Printing ----------

  function AttributeText(a: Attribute): string {
    a.name + "=\"" + Escape(a.value) + "\""
  }

  /** The attributes of a start tag, each after one space. */
  function AttributesText(s: seq<Attribute>): string {
    if s == [] then [] else " " + AttributeText(s[0]) + AttributesText(s[1..])
  }

  function Print(e: Element, indent: string): string
    decreases e, 0
  {
    var head := indent + "<" + e.name + AttributesText(e.attributes) + ">";
    var body := if e.children == [] then head
                else head + "\n" + PrintAll(e.children, indent + "  ") + indent;
    var text := if e.content == [] then body
                else if e.children == [] then body + Escape(e.content)
                else body + Escape(e.content) + "\n" + indent;
    text + "</" + e.name + ">\n"
  }

  function PrintAll(es: seq<Element>, indent: string): string
    decreases es, |es|
  {
    if es == [] then [] else Print(es[0], indent) + PrintAll(es[1..], indent)
  }

  // ---------- The lines of a printed tree ----------

  /** A line: how deep its element stands, and what is on it. */
  datatype Line = Line(depth: nat, text: string)

  /** An element without children is one line.  With children, start tag, content, if there
      is any, and end tag have lines of their own, and those of the children, one deeper,
      come before the content. */
  function Lines(e: Element, depth: nat): seq<Line>
    decreases e, 0
  {
    var start, end := "<" + e.name + AttributesText(e.attributes) + ">", "</" + e.name + ">";
    if e.children == [] then [Line(depth, start + Escape(e.content) + end)]
    else
      [Line(depth, start)] + LinesAll(e.children, depth + 1)
      + (if e.content == [] then [] else [Line(depth, Escape(e.content))]) + [Line(depth, end)]
  }

  function LinesAll(es: seq<Element>, depth: nat): seq<Line>
    decreases es, |es|
  {
    if es == [] then [] else Lines(es[0], depth) + LinesAll(es[1..], depth)
  }

  /** Two spaces for each level. */
  function Spaces(depth: nat): string {
    seq(2 * depth, _ => ' ')
  }

  function LinesText(lines: seq<Line>, indent: string): string {
    if lines == [] then []
    else indent + Spaces(lines[0].depth) + lines[0].text + "\n" + LinesText(lines[1..], indent)
  }

  lemma {:induction false} LinesTextConcat(a: seq<Line>, b: seq<Line>, indent: string)
    ensures LinesText(a + b, indent) == LinesText(a, indent) + LinesText(b, indent)
  {
    hide Spaces;
    if a == [] {
      assert a + b == b;
    } else {
      assert (a + b)[1..] == a[1..] + b;
      LinesTextConcat(a[1..], b, indent);
    }
  }

  lemma OneLine(depth: nat, text: string, indent: string)
    ensures LinesText([Line(depth, text)], indent) == indent + Spaces(depth) + text + "\n"
  {
    hide Spaces;
    assert [Line(depth, text)][1..] == [];
  }

  /** Every line of the printed tree stands at its depth. */
  lemma {:induction false} PrintIsLines(e: Element, indent: string, depth: nat)
    ensures Print(e, indent + Spaces(depth)) == LinesText(Lines(e, depth), indent)
    decreases e, 0
  {
    hide Escape, AttributesText, Spaces, LinesText, LinesAll, PrintAll;
    var start, end := "<" + e.name + AttributesText(e.attributes) + ">", "</" + e.name + ">";
    var here, kids := indent + Spaces(depth), LinesAll(e.children, depth + 1);
    if e.children == [] {
      assert e.content == [] ==> Escape(e.content) == [] by { EscapeNothing(); }
      OneLine(depth, start + Escape(e.content) + end, indent);
      OnlyLine(here, e.name, AttributesText(e.attributes), Escape(e.content));
    } else {
      var words := if e.content == [] then [] else [Line(depth, Escape(e.content))];
      LinesTextConcat([Line(depth, start)] + kids + words, [Line(depth, end)], indent);
      LinesTextConcat([Line(depth, start)] + kids, words, indent);
      LinesTextConcat([Line(depth, start)], kids, indent);
      OneLine(depth, start, indent);
      OneLine(depth, Escape(e.content), indent);
      OneLine(depth, end, indent);
      assert LinesText([], indent) == [] by { NoLines(indent); }
      SpacesMore(depth);
      assert here + "  " == indent + Spaces(depth + 1);
      PrintAllIsLines(e.children, indent, depth + 1);
      ManyLines(here, e.name, AttributesText(e.attributes), PrintAll(e.children, here + "  "), Escape(e.content));
    }
  }

  lemma OnlyLine(here: string, name: string, attributes: string, content: string)
    ensures here + "<" + name + attributes + ">" + content + "</" + name + ">\n"
         == here + ("<" + name + attributes + ">" + content + ("</" + name + ">")) + "\n"
    ensures content == [] ==>
      here + "<" + name + attributes + ">" + "</" + name + ">\n"
      == here + "<" + name + attributes + ">" + content + "</" + name + ">\n"
  {
  }

  lemma ManyLines(here: string, name: string, attributes: string, kids: string, content: string)
    ensures var start, end := "<" + name + attributes + ">", "</" + name + ">";
      && here + "<" + name + attributes + ">" + "\n" + kids + here + "</" + name + ">\n"
         == here + start + "\n" + kids + [] + (here + end + "\n")
      && here + "<" + name + attributes + ">" + "\n" + kids + here + content + "\n" + here + "</" + name + ">\n"
         == here + start + "\n" + kids + (here + content + "\n") + (here + end + "\n")
  {
  }

  lemma EscapeNothing()
    ensures Escape([]) == []
  {
  }

  lemma NoLines(indent: string)
    ensures LinesText([], indent) == []
  {
  }

  lemma SpacesMore(depth: nat)
    ensures Spaces(depth) + "  " == Spaces(depth + 1)
  {
  }

  lemma {:induction false} PrintAllIsLines(es: seq<Element>, indent: string, depth: nat)
    ensures PrintAll(es, indent + Spaces(depth)) == LinesText(LinesAll(es, depth), indent)
    decreases es, |es|
  {
    hide Print, Lines, Spaces, LinesText;
    if es == [] {
      NoLines(indent);
    } else {
      PrintIsLines(es[0], indent, depth);
      PrintAllIsLines(es[1..], indent, depth);
      LinesTextConcat(Lines(es[0], depth), LinesAll(es[1..], depth), indent);
    }
  }

  lemma {:induction false} PrintAllAppend(es: seq<Element>, e: Element, indent: string)
    ensures PrintAll(es + [e], indent) == PrintAll(es, indent) + Print(e, indent)
  {
    if es == [] {
      assert [e][1..] == [];
      assert [] + [e] == [e];
    } else {
      assert (es + [e])[1..] == es[1..] + [e];
      PrintAllAppend(es[1..], e, indent);
    }
  }

  lemma {:induction false} AttributesTextAppend(s: seq<Attribute>, a: Attribute)
    ensures AttributesText(s + [a]) == AttributesText(s) + " " + AttributeText(a)
  {
    if s == [] {
      assert [a][1..] == [];
      assert [] + [a] == [a];
    } else {
      assert (s + [a])[1..] == s[1..] + [a];
      AttributesTextAppend(s[1..], a);
    }
  }

  lemma {:induction false} EscapeAppend(s: string, c: char)
    ensures Escape(s + [c]) == Escape(s) + EscapeChar(c)
  {
    if s == [] {
      assert [c][1..] == [];
      assert [] + [c] == [c];
    } else {
      assert (s + [c])[1..] == s[1..] + [c];
      EscapeAppend(s[1..], c);
    }
  }

  // ---------- The program ----------

  /** The element objects.  `tree` is the value an object stands for. */
  class XmlElement {
    var name: string
    var content: string
    var attributes: seq<Attribute>
    var elements: seq<XmlElement>
    ghost var tree: Element
    ghost var Repr: set<object>

    ghost predicate Valid()
      reads this, Repr
      ensures Valid() ==> this in Repr
      decreases Repr
    {
      && this in Repr
      && (forall e :: e in elements ==>
            e in Repr && e.Repr <= Repr && this !in e.Repr && e.Valid())
      && tree.name == name && tree.content == content && tree.attributes == attributes
      && |tree.children| == |elements|
      && forall i :: 0 <= i < |elements| ==> tree.children[i] == elements[i].tree
    }

    constructor (elementName: string, text: string)
      ensures Valid() && fresh(Repr)
      ensures tree == Element(elementName, text, [], [])
    {
      name, content, attributes, elements := elementName, text, [], [];
      tree := Element(elementName, text, [], []);
      Repr := {this};
    }

    method SetName(newName: string)
      requires Valid()
      modifies this
      ensures Valid() && Repr == old(Repr) && tree == old(tree).(name := newName)
    {
      name := newName;
      tree := tree.(name := newName);
    }

    method SetContent(text: string)
      requires Valid()
      modifies this
      ensures Valid() && Repr == old(Repr) && tree == old(tree).(content := text)
    {
      content := text;
      tree := tree.(content := text);
    }

    method AddAttribute(attributeName: string, value: string)
      requires Valid()
      modifies this
      ensures Valid() && Repr == old(Repr)
      ensures tree == old(tree).(attributes := old(tree).attributes + [Attribute(attributeName, value)])
    {
      attributes := attributes + [Attribute(attributeName, value)];
      tree := tree.(attributes := attributes);
    }

    method AddElement(node: XmlElement)
      requires Valid() && node.Valid() && this !in node.Repr
      modifies this
      ensures Valid() && Repr == old(Repr) + node.Repr
      ensures tree == old(tree).(children := old(tree).children + [node.tree])
    {
      elements := elements + [node];
      tree := tree.(children := tree.children + [node.tree]);
      Repr := Repr + node.Repr;
    }

    method ToString(indent: string) returns (element: string)
      requires Valid()
      ensures element == Print(tree, indent)
      decreases Repr, 1
    {
      element := indent;
      element := element + "<";
      element := element + name;
      if attributes != [] {
        ghost var start := element;
        element := element + " ";
        var text := AttributesAsString();
        element := element + text;
        assert element == start + AttributesText(attributes);
      } else {
        assert element == element + AttributesText(attributes);
      }
      element := element + ">";
      if elements != [] {
        element := element + "\n";
        element := AppendElements(element, indent + "  ");
        element := element + indent;
      }
      if content != [] {
        var text := EscapeText(content);
        element := element + text;
        if elements != [] {
          element := element + "\n";
          element := element + indent;
        }
      }
      element := element + "</";
      element := element + name;
      element := element + ">\n";
    }

    /** The loop of ToString over the child elements. */
    method AppendElements(start: string, indent: string) returns (element: string)
      requires Valid()
      ensures element == start + PrintAll(tree.children, indent)
      decreases Repr, 0
    {
      element := start;
      var k := 0;
      while k < |elements|
        invariant 0 <= k <= |elements|
        invariant element == start + PrintAll(tree.children[..k], indent)
      {
        var node := elements[k];
        assert node in elements;
        var text := node.ToString(indent);
        assert tree.children[..k + 1] == tree.children[..k] + [node.tree];
        PrintAllAppend(tree.children[..k], node.tree, indent);
        Associate(start, PrintAll(tree.children[..k], indent), text);
        element := element + text;
        k := k + 1;
      }
      assert tree.children[..k] == tree.children;
    }

    method AttributesAsString() returns (text: string)
      ensures attributes == [] ==> text == []
      ensures attributes != [] ==> " " + text == AttributesText(attributes)
    {
      text := [];
      var k := 0;
      while k < |attributes|
        invariant 0 <= k <= |attributes|
        invariant k == 0 ==> text == []
        invariant k > 0 ==> text != [] && " " + text == AttributesText(attributes[..k])
      {
        ghost var before := text;
        if text != [] {
          text := text + " ";
        }
        ghost var start := text;
        var attribute := attributes[k];
        text := text + attribute.name;
        text := text + "=\"";
        var value := EscapeText(attribute.value);
        text := text + value;
        text := text + "\"";
        AttributeAppended(start, attribute);
        assert attributes[..k + 1] == attributes[..k] + [attribute];
        AttributesTextAppend(attributes[..k], attribute);
        if k == 0 {
          assert attributes[..k] == [];
          assert [] + " " == " ";
          assert start + AttributeText(attribute) == AttributeText(attribute);
        } else {
          Associate(" ", start, AttributeText(attribute));
          Associate(" ", before, " ");
        }
        k := k + 1;
      }
      assert attributes[..k] == attributes;
    }
  }

  lemma Associate(a: string, b: string, c: string)
    ensures a + (b + c) == a + b + c
  {
  }

  lemma AttributeAppended(start: string, a: Attribute)
    ensures start + a.name + "=\"" + Escape(a.value) + "\"" == start + AttributeText(a)
  {
  }

  method EscapeText(value: string) returns (escaped: string)
    ensures escaped == Escape(value)
  {
    escaped := [];
    var index := 0;
    while index < |value|
      invariant 0 <= index <= |value| && escaped == Escape(value[..index])
    {
      var c := value[index];
      assert value[..index + 1] == value[..index] + [c];
      EscapeAppend(value[..index], c);
      match c {
        case '<' => escaped := escaped + "&lt;";
        case '>' => escaped := escaped + "&gt;";
        case '&' => escaped := escaped + "&amp;";
        case '\'' => escaped := escaped + "&apos;";
        case '"' => escaped := escaped + "&quot;";
        case _ => escaped := escaped + [c];
      }
      index := index + 1;
    }
    assert value[..index] == value;
  }
}
